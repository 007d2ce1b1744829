/** Small shared pieces: the optional value, and Go's unordered map iteration. */
module Wrappers {
  datatype Option<+T> = None | Some(value: T)

  newtype byte = x: int | 0 <= x < 256

  const TWO_TO_THE_64 := 0x1_0000_0000_0000_0000

  type uint64 = x: int | 0 <= x < TWO_TO_THE_64

  /**
  The next key that ranging over a map visits. Go leaves the order open, and
  callers see nothing of this method but its contract: what they prove holds for
  every order.
  */
  method Pick<T>(todo: set<T>) returns (x: T)
    requires todo != {}
    ensures x in todo
  {
    x :| x in todo;
  }

  /** Names an element of a nonempty set. */
  lemma Witness<T>(s: set<T>) returns (x: T)
    requires s != {}
    ensures x in s
  {
    x :| x in s;
  }
}
