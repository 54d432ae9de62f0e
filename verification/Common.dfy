/** Result and option types, and the sequence facts several modules need. */
module Common {
  datatype Option<+T> = None | Some(value: T) {
    predicate IsFailure() { None? }

    function PropagateFailure<U>(): Option<U>
      requires None?
    {
      None
    }

    function Extract(): T
      requires Some?
    {
      value
    }
  }

  /** `Failure` stands for a thrown error or a rejected promise. */
  datatype Result<+T> = Success(value: T) | Failure

  predicate StartsWith<T(==)>(s: seq<T>, prefix: seq<T>) {
    prefix <= s
  }

  predicate EndsWith<T(==)>(s: seq<T>, suffix: seq<T>) {
    |suffix| <= |s| && s[|s| - |suffix|..] == suffix
  }

  function Min(a: int, b: int): int {
    if a <= b then a else b
  }
}
