/** A log message: what publishers put in the queue and stores keep (src/msgqueue.h). */
module Messages {
  import opened Bytes

  datatype Message = Message(topic: bytes, content: bytes) {
    /** The bytes the queue's memory accounting charges for this message. */
    function Weight(): (r: nat) { |topic| + |content| }
  }
}
