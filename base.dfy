/** Values shared by the whole report generator: optional values, the Python
    errors the script can die with, and the shape of an already-parsed CSV table. */
module Base {

  datatype Option<+T> = None | Some(value: T) {
    function GetOr(default: T): T {
      match this
      case Some(v) => v
      case None => default
    }
  }

  /** The uncaught Python exceptions the script can end with. */
  datatype PyError =
    | IndexError   // `pop(0)` on an empty list, or a row index out of range
    | ValueError   // unpacking a tuple into the wrong number of names
    | NotFound     // a vendor `getElement` on an element the message does not carry
    | FileError    // `open` on a path that cannot be read

  datatype Result<+T> = Ok(value: T) | Err(error: PyError)

  /** One CSV row as `csv.reader` yields it, and a whole file. */
  type Row = seq<string>
  type Table = seq<Row>

  /** Concatenation is associative; stated apart so that proofs about
      recursive sequence functions need not rediscover it. */
  lemma AppendAssoc<T>(a: seq<T>, b: seq<T>, c: seq<T>)
    ensures a + b + c == a + (b + c)
  {
  }
}
