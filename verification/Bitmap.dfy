// The bytewise reading of a coverage map, shared by the fuzzer and the minimizer.
module Bitmap {
  import opened Bytes

  // Hit counts fall into eight classes, one bit each.
  function CountClass(b: byte): byte {
    if b <= 2 then b
    else if b == 3 then 4
    else if b <= 7 then 8
    else if b <= 15 then 16
    else if b <= 31 then 32
    else if b <= 127 then 64
    else 128
  }

  function Classified(trace: seq<byte>): (t: seq<byte>)
    ensures |t| == |trace|
  {
    seq(|trace|, i requires 0 <= i < |trace| => CountClass(trace[i]))
  }
}
