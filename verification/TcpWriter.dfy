/**
  The sending side of tcp-large-transfer.cc: a fixed buffer of 1040 bytes is written
  again and again, over any number of callbacks, until 2000000 bytes are accepted.
 */
module TcpWriter {

  const TOTAL_TX_BYTES: nat := 2000000
  const WRITE_SIZE: nat := 1040
  const LETTERS: nat := 26

  /** The k-th byte that the receiver is meant to see: a, b, ..., z and over again. */
  function Letter(k: nat): nat { 97 + k % LETTERS }

  function Stream(n: nat): seq<nat> { seq(n, (k: nat) => Letter(k)) }

  /**
    The socket.  `behaviour` stands for everything the sender cannot see: what each
    event does to the room in the send buffer and how much of each write is accepted.
   */
  class Socket {
    const behaviour: nat -> int
    var events: nat
    var available: nat        // what GetTxAvailable() returns
    var accepted: seq<nat>    // all bytes taken so far
    var closings: nat

    constructor (behaviour: nat -> int)
      ensures this.behaviour == behaviour
      ensures accepted == [] && closings == 0 && events == 0
    {
      this.behaviour := behaviour;
      events, available, accepted, closings := 0, 0, [], 0;
    }

    /** Time passes: there may be more or less room than before. */
    method Elapse()
      modifies this`events, this`available
      ensures events == old(events) + 1
      ensures available == if behaviour(old(events)) < 0 then 0 else behaviour(old(events))
    {
      available := if behaviour(events) < 0 then 0 else behaviour(events);
      events := events + 1;
    }

    /** Takes a part of the bytes, at least one, or reports an error. */
    method Send(bytes: seq<nat>) returns (amount: int)
      requires bytes != []
      modifies this`events, this`available, this`accepted
      ensures amount < 0 <==> behaviour(old(events)) <= 0
      ensures amount < 0 ==> accepted == old(accepted)
      ensures amount >= 0 ==> 1 <= amount <= |bytes| && accepted == old(accepted) + bytes[..amount]
      ensures events == old(events) + 2
      ensures available == if behaviour(old(events) + 1) < 0 then 0 else behaviour(old(events) + 1)
    {
      var choice := behaviour(events);
      events := events + 1;
      if choice <= 0 {
        amount := -1;
      } else {
        amount := if choice < |bytes| then choice else |bytes|;
        accepted := accepted + bytes[..amount];
      }
      Elapse();
    }

    method Close()
      modifies this`closings
      ensures closings == old(closings) + 1
    {
      closings := closings + 1;
    }
  }

  lemma LettersRepeat(k: nat, x: nat)
    ensures (LETTERS * k + x) % LETTERS == x % LETTERS
  {
    assert LETTERS * k + x == LETTERS * (k + x / LETTERS) + x % LETTERS;
  }

  /** A buffer written over and over shows no seam exactly when it holds whole alphabets. */
  lemma SeamlessIff(size: nat)
    requires size > 0
    ensures size % LETTERS == 0 <==> forall k: nat :: Letter(k % size) == Letter(k)
  {
    if size % LETTERS == 0 {
      forall k: nat ensures Letter(k % size) == Letter(k) {
        WholeAlphabets(size / LETTERS, k);
      }
    } else {
      assert Letter(size % size) == Letter(0) != Letter(size);
    }
  }

  lemma WholeAlphabets(alphabets: nat, k: nat)
    requires alphabets > 0
    ensures Letter(k % (LETTERS * alphabets)) == Letter(k)
  {
    var size := LETTERS * alphabets;
    var rounds, rest := k / size, k % size;
    assert k == size * rounds + rest;
    assert size * rounds == LETTERS * (alphabets * rounds);
    LettersRepeat(alphabets * rounds, rest);
  }

  lemma InSameRound(sent: nat, offset: nat)
    requires offset < WRITE_SIZE - sent % WRITE_SIZE
    ensures (sent + offset) % WRITE_SIZE == sent % WRITE_SIZE + offset
  {
  }

  /** Appending an accepted part of a slice of the buffer gives a longer piece of the stream. */
  lemma StreamGrows(data: seq<nat>, sent: nat, toWrite: nat, amount: nat)
    requires |data| == WRITE_SIZE && forall i :: 0 <= i < WRITE_SIZE ==> data[i] == Letter(i)
    requires amount <= toWrite <= WRITE_SIZE - sent % WRITE_SIZE
    ensures var offset := sent % WRITE_SIZE;
            Stream(sent) + data[offset..offset + toWrite][..amount] == Stream(sent + amount)
  {
    var offset := sent % WRITE_SIZE;
    var longer := Stream(sent) + data[offset..offset + toWrite][..amount];
    forall k | 0 <= k < sent + amount ensures longer[k] == Letter(k) {
      if k >= sent {
        SeamlessIff(WRITE_SIZE);
        InSameRound(sent, k - sent);
        assert longer[k] == data[k % WRITE_SIZE];
      }
    }
  }

  class Sender {
    const data: array<nat>
    var currentTxBytes: nat

    constructor ()
      ensures fresh(data) && currentTxBytes == 0 && data.Length == WRITE_SIZE == 1040
    {
      data := new nat[WRITE_SIZE];
      currentTxBytes := 0;
    }

    /** The loop at the start of main. */
    method InitializeBuffer()
      requires data.Length == WRITE_SIZE
      modifies data
      ensures forall i :: 0 <= i < WRITE_SIZE ==> data[i] == Letter(i)
    {
      for i := 0 to WRITE_SIZE
        invariant forall j :: 0 <= j < i ==> data[j] == Letter(j)
      {
        data[i] := 97 + i % 26;
      }
    }

    /** What every callback leaves: the socket has taken exactly the first bytes of the stream. */
    ghost predicate Sending(socket: Socket)
      reads this, data, socket
    {
      && data.Length == WRITE_SIZE
      && (forall i :: 0 <= i < WRITE_SIZE ==> data[i] == Letter(i))
      && currentTxBytes <= TOTAL_TX_BYTES
      && socket.accepted == Stream(currentTxBytes)
      && (socket.closings > 0 ==> currentTxBytes == TOTAL_TX_BYTES)
    }

    /** Returns when everything is sent, there is no room, or the last write has failed. */
    method WriteUntilBufferFull(socket: Socket, txSpace: nat)
      requires Sending(socket)
      modifies this`currentTxBytes, socket
      ensures Sending(socket) && old(currentTxBytes) <= currentTxBytes
      ensures currentTxBytes == TOTAL_TX_BYTES || socket.available == 0 ||
              (old(socket.events) + 2 <= socket.events && socket.behaviour(socket.events - 2) <= 0)
      ensures old(socket.events) <= socket.events
      ensures old(socket.available) > 0 && Ready(socket.behaviour, old(socket.events)) ==>
                currentTxBytes == TOTAL_TX_BYTES
      ensures socket.closings == old(socket.closings) + if currentTxBytes == TOTAL_TX_BYTES then 1 else 0
    {
      while currentTxBytes < TOTAL_TX_BYTES && socket.available > 0
        invariant Sending(socket) && old(currentTxBytes) <= currentTxBytes
        invariant socket.closings == old(socket.closings) && old(socket.events) <= socket.events
        invariant old(socket.available) > 0 && Ready(socket.behaviour, old(socket.events)) ==> socket.available > 0
        decreases TOTAL_TX_BYTES - currentTxBytes
      {
        var left := TOTAL_TX_BYTES - currentTxBytes;
        var dataOffset := currentTxBytes % WRITE_SIZE;
        var toWrite := WRITE_SIZE - dataOffset;
        toWrite := if left < toWrite then left else toWrite;
        toWrite := if socket.available < toWrite then socket.available else toWrite;
        var amountSent := socket.Send(data[dataOffset..dataOffset + toWrite]);
        if amountSent < 0 {
          return;
        }
        StreamGrows(data[..], currentTxBytes, toWrite, amountSent);
        assert data[..][dataOffset..dataOffset + toWrite] == data[dataOffset..dataOffset + toWrite];
        currentTxBytes := currentTxBytes + amountSent;
      }
      if currentTxBytes >= TOTAL_TX_BYTES {
        socket.Close();
      }
    }

    /** The flow starts with one call, and every later event of the socket makes another. */
    method StartFlow(socket: Socket, callbacks: nat)
      requires Sending(socket) && socket.closings == 0 && socket.events == 0
      modifies this`currentTxBytes, socket
      ensures Sending(socket) && (socket.closings > 0 <==> currentTxBytes == TOTAL_TX_BYTES)
      ensures Ready(socket.behaviour, callbacks) ==> currentTxBytes == TOTAL_TX_BYTES
    {
      socket.Elapse();
      WriteUntilBufferFull(socket, socket.available);
      for i := 0 to callbacks
        invariant Sending(socket) && (socket.closings > 0 <==> currentTxBytes == TOTAL_TX_BYTES)
        invariant socket.events > i
        invariant Ready(socket.behaviour, i) ==> currentTxBytes == TOTAL_TX_BYTES
      {
        socket.Elapse();
        WriteUntilBufferFull(socket, socket.available);
      }
    }
  }

  /** From event n on there is always room, and no write fails. */
  ghost predicate Ready(behaviour: nat -> int, n: nat) {
    forall k: nat :: n <= k ==> behaviour(k) > 0
  }

  /**
    The program as a whole: whatever the socket does, it has taken the first bytes of
    a, b, ..., z over and over, and it is closed exactly when it has taken all 2000000.
    That happens as soon as there is a callback from which on the socket is ready.
   */
  method LargeTransfer(behaviour: nat -> int, callbacks: nat) returns (accepted: seq<nat>, closed: bool)
    ensures |accepted| <= 2000000 && forall k :: 0 <= k < |accepted| ==> accepted[k] == 'a' as int + k % 26
    ensures closed <==> |accepted| == 2000000
    ensures Ready(behaviour, callbacks) ==> closed
  {
    var sender := new Sender();
    sender.InitializeBuffer();
    var socket := new Socket(behaviour);
    sender.StartFlow(socket, callbacks);
    accepted, closed := socket.accepted, socket.closings > 0;
  }
}
