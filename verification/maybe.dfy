/** An optional value that works with Dafny's `:-` operator.

    Throughout the model `None` stands for an access the C code would make
    outside a host buffer (or misaligned): behaviour C leaves undefined. */
module Maybe {

  datatype Option<+T> = None | Some(value: T) {

    predicate IsFailure() {
      None?
    }

    function PropagateFailure<U>(): Option<U>
      requires None?
    {
      None
    }

    function Extract(): T
      requires Some?
    {
      value
    }
  }
}
