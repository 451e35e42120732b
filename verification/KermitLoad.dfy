/** Loading a file over the serial line: the receiver at work on what a stop-and-wait sender transmits. */
module KermitLoad {
  import opened Bytes
  import opened KermitProtocol
  import opened KermitDelivery
  import opened KermitReceiver

  /** load_serial_bin: whatever was damaged, repeated or lost before the last attempt at each packet, RAM from
      the start address on holds the file, each byte once and in order, and its size is returned. */
  method LoadSerialBin(r: Receiver, ghost xs: seq<Exchange>, ghost pieces: seq<seq<byte>>, ghost rest: seq<byte>)
    returns (size: nat)
    requires r.Valid() && r.start + (|r.input| - r.pos) <= r.ram.Length
    requires r.input[r.pos..] == WireAll(xs) + rest
    requires EndsInBreak(xs) && StopAndWait(xs, -1) && Carries(xs, K_ESCAPE, pieces)
    modifies r, r.ram, r.aB, r.sendParms
    ensures size == |Flatten(pieces)| && r.start + size <= r.ram.Length
    ensures r.ram[r.start..r.start + size] == Flatten(pieces)
  {
    FileArrives(xs, pieces, rest, r.sent);
    var result := r.KRecv();
    size := result.size;
  }
}
