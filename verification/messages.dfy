/** What a rank of the scheduler hands to the message layer. The transport
itself (MPI sends and receives) is not modelled: an operation returns the
messages it would send, in send order, as data. */
module Messages {
  import opened Schedules

  /** The token held by a rank, or carried by a token message. */
  datatype TokenValue = NoToken | GreenToken | RedToken

  datatype Message =
    | ScheduleSend(dest: int, schedule: Schedule)   // SendSchedule
    | TokenPass(dest: int, token: TokenValue)       // PassToken
    | EndSignal(dest: int)                          // zero-length MYTAG_END send

  /** The rank a message is addressed to lies in the world. */
  predicate AddressedWithin(outbox: seq<Message>, worldSize: int) {
    forall k :: 0 <= k < |outbox| ==> 0 <= outbox[k].dest < worldSize
  }
}
