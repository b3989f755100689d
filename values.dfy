/**
 * The logical values that travel as pickled payloads, and the serializer
 * itself, which the model takes as a parameter.
 */
module Values {
  import opened Wrappers
  import opened Bytes

  /** One detected box: its class id and corners (the confidence score is not modelled). */
  datatype Box = Box(cls: int, x1: int, y1: int, x2: int, y2: int)

  /** The Python values the protocol pickles. */
  datatype Value =
    | Text(text: string)                  // a str: the availability check
    | IntList(ints: seq<int>)             // a list of class ids: an assignment
    | Blob(bytes: seq<byte>)              // a bytes object: the image file
    | Table(table: map<int, seq<Box>>)    // a dict from class id to boxes: a worker's detections
    | NoneValue                           // None: what a worker reports when the image does not open

  /** `pickle.dumps` and `pickle.loads`; `loads` gives None where Python raises. */
  datatype Codec = Codec(dumps: Value -> seq<byte>, loads: seq<byte> -> Option<Value>)

  /** The control message of the availability poll. */
  const AVAILABILITY_CHECK: Value := Text("Check availability")

  /** Loading what was dumped gives the value back. */
  ghost predicate RoundTrips(codec: Codec) {
    forall v :: codec.loads(codec.dumps(v)) == Some(v)
  }
}
