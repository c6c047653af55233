/** The fixed-size event record that the bus copies in and out of its slots. */
module Events {
  datatype Event = Event(
    ts: nat,
    origin: nat,
    kind: nat,
    pid: nat,
    ppid: nat,
    uid: nat,
    gid: nat,
    comm: seq<char>,
    path: seq<char>,
    payload: seq<bv8>,
    payloadLen: nat)

  /** What calloc leaves in a slot. */
  function ZeroEvent(): Event {
    Event(0, 0, 0, 0, 0, 0, 0, seq(16, _ => '\0'), seq(256, _ => '\0'), seq(256, _ => 0), 0)
  }
}
