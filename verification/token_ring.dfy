/** The per-rank token-passing steps of the termination detector
(Worker::HandleTokenPassing and Worker::HandleTokenReceive in
hw3/src/Worker.cpp). Ranks form the ring 0, 1, ..., worldSize-1, 0. A step
takes one rank's flags and returns the new flags together with the messages
the rank sends, in send order. */
module TokenRing {
  import opened Messages

  /** The token-related fields of a worker. */
  datatype TokenState = TokenState(isGreen: bool, isRed: bool, token: TokenValue)

  datatype Step = Step(state: TokenState, outbox: seq<Message>)

  function Successor(myRank: int, worldSize: int): (next: int)
    requires 0 <= myRank < worldSize
    ensures 0 <= next < worldSize
    ensures next == 0 <==> myRank == worldSize - 1
    ensures myRank < worldSize - 1 ==> next == myRank + 1
  {
    (myRank + 1) % worldSize
  }

  /** HandleTokenPassing. The root, once it has work behind it (isGreen
      false) and has someone to talk to, starts a green token to rank 1 and
      marks itself green. A non-root rank that holds a token first sends an
      extra red token if it is marked red, then forwards the held token to its
      successor unchanged; it is then green and holds no token. */
  function HandleTokenPassing(myRank: int, worldSize: int, st: TokenState): (r: Step)
    requires 0 <= myRank < worldSize
    ensures AddressedWithin(r.outbox, worldSize)
    ensures r.state.isRed == st.isRed
    ensures myRank == 0 && worldSize > 1 && !st.isGreen ==>
              r.state == st.(isGreen := true) && r.outbox == [TokenPass(1, GreenToken)]
    ensures myRank == 0 && (worldSize == 1 || st.isGreen) ==> r == Step(st, [])
    ensures myRank != 0 && st.token != NoToken ==>
              && r.state.isGreen && r.state.token == NoToken
              && |r.outbox| == (if st.isRed then 2 else 1)
              && r.outbox[|r.outbox| - 1] == TokenPass(Successor(myRank, worldSize), st.token)
              && (st.isRed ==> r.outbox[0] == TokenPass(Successor(myRank, worldSize), RedToken))
    ensures myRank != 0 && st.token == NoToken ==> r == Step(st, [])
  {
    var start :=
      if myRank == 0 && worldSize > 1 && !st.isGreen
      then Step(st.(isGreen := true), [TokenPass(myRank + 1, GreenToken)])
      else Step(st, []);
    if start.state.token != NoToken && myRank != 0 then
      var next := Successor(myRank, worldSize);
      var red := if start.state.isRed then [TokenPass(next, RedToken)] else [];
      Step(start.state.(isGreen := true, token := NoToken),
           start.outbox + red + [TokenPass(next, start.state.token)])
    else
      start
  }

  /** The END message to every rank 0, 1, ..., worldSize-1, in that order. */
  function EndAll(worldSize: int): (out: seq<Message>)
    ensures |out| == if worldSize < 0 then 0 else worldSize
    ensures forall i :: 0 <= i < |out| ==> out[i] == EndSignal(i)
  {
    if worldSize <= 0 then [] else EndAll(worldSize - 1) + [EndSignal(worldSize - 1)]
  }

  /** HandleTokenReceive. A received green or red token becomes the held
      token. The root then announces the end to every rank, whatever the
      colour it received. */
  function HandleTokenReceive(myRank: int, worldSize: int, st: TokenState, received: TokenValue): (r: Step)
    requires 0 <= myRank < worldSize
    ensures r.state.isGreen == st.isGreen && r.state.isRed == st.isRed
    ensures r.state.token == (if received.NoToken? then st.token else received)
    ensures myRank != 0 ==> r.outbox == []
    ensures myRank == 0 ==> |r.outbox| == worldSize
    ensures myRank == 0 ==> forall i :: 0 <= i < worldSize ==> r.outbox[i] == EndSignal(i)
    ensures AddressedWithin(r.outbox, worldSize)
  {
    var held :=
      if received == GreenToken then GreenToken
      else if received == RedToken then RedToken
      else st.token;
    Step(st.(token := held), if myRank == 0 then EndAll(worldSize) else [])
  }

  /** A second passing step right after the first sends nothing and changes
      nothing: the root starts at most one token, and a rank forwards the
      token it holds once. */
  lemma PassingIsIdempotent(myRank: int, worldSize: int, st: TokenState)
    requires 0 <= myRank < worldSize
    ensures var first := HandleTokenPassing(myRank, worldSize, st);
            HandleTokenPassing(myRank, worldSize, first.state) == Step(first.state, [])
  {
  }

  /** A non-root rank receiving a coloured token and then passing forwards
      that same colour to its successor, last, and ends up holding no token. */
  lemma ReceivedColourIsForwarded(myRank: int, worldSize: int, st: TokenState, colour: TokenValue)
    requires 0 < myRank < worldSize
    requires colour != NoToken
    ensures var held := HandleTokenReceive(myRank, worldSize, st, colour).state;
            var r := HandleTokenPassing(myRank, worldSize, held);
            && r.outbox[|r.outbox| - 1] == TokenPass(Successor(myRank, worldSize), colour)
            && r.state.token == NoToken
            && (!st.isRed ==> r.outbox == [TokenPass(Successor(myRank, worldSize), colour)])
  {
  }

  /** Feeds the token messages of `inbox` to HandleTokenReceive in order. */
  function ReceiveAll(myRank: int, worldSize: int, st: TokenState, inbox: seq<Message>): (r: TokenState)
    requires 0 <= myRank < worldSize
    ensures r.isGreen == st.isGreen && r.isRed == st.isRed
    decreases |inbox|
  {
    if inbox == [] then st
    else
      var rest := inbox[1..];
      var next := if inbox[0].TokenPass? then HandleTokenReceive(myRank, worldSize, st, inbox[0].token).state else st;
      ReceiveAll(myRank, worldSize, next, rest)
  }

  /** The red marking does not survive a hop: a red rank sends the extra red
      token before the token it holds, so its non-root successor, taking both
      in order, is left holding the original colour. */
  lemma {:induction false} RedMarkIsOverwritten(myRank: int, worldSize: int, st: TokenState, succ: TokenState)
    requires 0 < myRank < worldSize - 1
    requires st.isRed && st.token == GreenToken
    ensures var sent := HandleTokenPassing(myRank, worldSize, st).outbox;
            && sent == [TokenPass(myRank + 1, RedToken), TokenPass(myRank + 1, GreenToken)]
            && ReceiveAll(myRank + 1, worldSize, succ, sent).token == GreenToken
  {
    var sent := HandleTokenPassing(myRank, worldSize, st).outbox;
    var afterRed := HandleTokenReceive(myRank + 1, worldSize, succ, RedToken).state;
    var afterGreen := HandleTokenReceive(myRank + 1, worldSize, afterRed, GreenToken).state;
    assert sent[1..][1..] == [];
    assert ReceiveAll(myRank + 1, worldSize, afterGreen, []) == afterGreen;
  }
}
