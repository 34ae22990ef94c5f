/** Value slots, compared by identity, and the values they hold. */
module Slots {
  import opened Ordering

  /** A stored object: a tuple of objects, or anything that is not a tuple. */
  datatype Raw = Atom(id: int) | Tuple(items: seq<Raw>)

  class ValueSlot {
    const diagnosticName: string
    /** Cardinality MANY: the slot holds a group. */
    const many: bool
    /** The validated value; `None` when the validator raises. */
    const validate: Raw -> Option<Raw>

    constructor (diagnosticName: string, many: bool, validate: Raw -> Option<Raw>)
      ensures this.diagnosticName == diagnosticName && this.many == many && this.validate == validate
    {
      this.diagnosticName, this.many, this.validate := diagnosticName, many, validate;
    }
  }
}
