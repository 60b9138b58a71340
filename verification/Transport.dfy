/** The NetworkTransport object of src/transport.cpp: receive buffer, output buffers and queue, updated in place. */
module Transport {
  import opened Bytes
  import opened Crc16
  import opened InputStream
  import opened Framing
  import R = ReceiveLoop
  import W = WritePump

  class NetworkTransport {
    /** The JSON reader, a library. */
    const json: Json

    // The incoming side.
    var incomingMessageBuffer: seq<byte>
    var received: seq<seq<byte>>  // calls of received_message_callback_

    // The outgoing side.
    var outgoingMessageBuffers: seq<seq<byte>>
    var outgoingMessageQueue: seq<seq<byte>>

    // The socket: the write in flight, and what it has taken.
    var writing: bool
    var failed: bool
    var sent: nat
    var wire: seq<byte>

    ghost function Receiver(): (receiver: R.Receiver)
      reads this
    {
      R.Receiver(incomingMessageBuffer, received)
    }

    ghost function Pump(): (pump: W.Pump)
      reads this
    {
      W.Pump(outgoingMessageQueue, outgoingMessageBuffers, writing, failed, sent, wire)
    }

    constructor (json: Json)
      ensures this.json == json
      ensures Receiver() == R.INITIAL && Pump() == W.INITIAL
    {
      this.json := json;
      incomingMessageBuffer, received := [], [];
      outgoingMessageBuffers, outgoingMessageQueue := [[], [], []], [];
      writing, failed, sent, wire := false, false, 0, [];
    }

    /** Reads one message off the front of the buffer, then skips to the end of the reported line. */
    method ParseIncomingMessage(length: nat) returns (message: Parsed)
      modifies this`incomingMessageBuffer
      ensures (incomingMessageBuffer, message) == ParseIncoming(old(incomingMessageBuffer), length, json)
    {
      hide Crc, ToNat, AfterHeader, ReadCount, ReadChar, ReadBytes, ParseStream;
      message := Null;
      var bytesBuffered := |incomingMessageBuffer|;
      var unread := incomingMessageBuffer;
      if unread != [] && unread[0] == OPEN_BRACE {
        var (rest, parsed) := ParseStream(unread, json);
        unread, message := rest, parsed;
      } else {
        unread, message := ReadFramedMessage(Stream(unread, unread != []));
      }
      var bytesConsumed := bytesBuffered - |unread|;
      incomingMessageBuffer := Ignore(unread, length - bytesConsumed);
    }

    /** The loop over headers; each break stands for a thrown and swallowed exception. */
    method ReadFramedMessage(start: Stream) returns (unread: seq<byte>, message: Parsed)
      ensures (unread, message) == ReadHeaders(start, -1, false, json)
    {
      hide ToNat, AfterHeader, ReadCount, ReadChar, ReadBytes, ParseStream;
      var istream := start;
      message := Null;
      var expectedChecksum: int := -1;
      var endOfHeaders := false;
      ghost var outcome := ReadHeaders(start, -1, false, json);
      while true
        invariant message == Null
        invariant outcome == ReadHeaders(istream, expectedChecksum, endOfHeaders, json)
        decreases |istream.unread|
      {
        var (afterCount, characterCount) := ReadCount(istream);
        var (afterColon, colon) := ReadChar(afterCount);
        istream := afterColon;
        if !istream.good || characterCount > MESSAGE_LENGTH_MAX || colon != COLON {
          break;
        }
        if !endOfHeaders {
          var (afterText, characterSequence) := ReadBytes(istream, characterCount);
          var (afterComma, comma) := ReadChar(afterText);
          istream := afterComma;
          if !istream.good || comma != COMMA {
            break;
          }
          if characterCount == 0 {
            endOfHeaders := true;
          } else {
            var next := AfterHeader(characterSequence, expectedChecksum);
            if next == None {
              break;
            }
            expectedChecksum := next.value;
          }
        } else {
          if |istream.unread| < characterCount + 1 {
            break;
          }
          var actualChecksum := CalculateCRC16(istream.unread[..characterCount]);
          if ToNat(actualChecksum) != expectedChecksum {
            break;
          }
          if istream.unread[characterCount] != COMMA || characterCount == 0 {
            break;
          }
          var (rest, parsed) := ParseStream(istream.unread, json);
          istream, message := Stream(rest, istream.good), parsed;
          break;
        }
      }
      unread := istream.unread;
    }

    /** A completed async_read_until that reported `bytesTransferred` bytes. */
    method IncomingMessageHandler(bytesTransferred: nat)
      modifies this`incomingMessageBuffer, this`received
      ensures Receiver() == R.HandleLine(old(Receiver()), bytesTransferred, json)
    {
      hide ParseIncoming;
      var message := ParseIncomingMessage(bytesTransferred);
      if message != Null {
        received := received + [message.text];
      } else {
        assert received + [] == received;
      }
    }

    /** Writes the message and its header and trailer behind what the output buffers hold. */
    method EncapsulateOutgoingMessage(payload: seq<byte>)
      requires |outgoingMessageBuffers| == 3
      modifies this`outgoingMessageBuffers
      ensures outgoingMessageBuffers == W.EncapsulateInto(old(outgoingMessageBuffers), payload)
    {
      hide Crc, ChecksumHeader, HeaderItem, Declared;
      var main := outgoingMessageBuffers[1] + payload;
      var length := |main|;
      var checksum := CalculateCRC16(main);
      var leading :=
        outgoingMessageBuffers[0] + (HeaderItem(ChecksumHeader(checksum)) + HeaderItem([]) + Declared(length));
      outgoingMessageBuffers := [leading, main, outgoingMessageBuffers[2] + TRAILING_PART];
    }

    /** Queues the message; starts writing it when nothing was queued before it. */
    method TransmitMessage(payload: seq<byte>)
      requires |outgoingMessageBuffers| == 3
      modifies this`outgoingMessageQueue, this`outgoingMessageBuffers, this`writing, this`sent
      ensures Pump() == W.TransmitMessage(old(Pump()), payload)
    {
      hide W.EncapsulateInto;
      var transmitInProgress := outgoingMessageQueue != [];
      outgoingMessageQueue := outgoingMessageQueue + [payload];
      if !transmitInProgress {
        EncapsulateOutgoingMessage(outgoingMessageQueue[0]);
        writing, sent := true, 0;
      }
    }

    /** The end of a write: the next queued message starts, or an error stops the pump. */
    method OutgoingMessageHandler(error: bool)
      requires |outgoingMessageBuffers| == 3 && outgoingMessageQueue != []
      modifies this`outgoingMessageQueue, this`outgoingMessageBuffers, this`writing, this`failed, this`sent
      ensures Pump() == if error then W.WriteFailed(old(Pump())) else W.WriteDone(old(Pump()))
    {
      hide W.EncapsulateInto;
      writing := false;
      if !error {
        for i := 0 to 3
          modifies this`outgoingMessageBuffers
          invariant |outgoingMessageBuffers| == 3
          invariant forall k :: 0 <= k < i ==> outgoingMessageBuffers[k] == []
        {
          outgoingMessageBuffers := outgoingMessageBuffers[i := []];
        }
        assert outgoingMessageBuffers == [[], [], []];
        sent := 0;
        outgoingMessageQueue := outgoingMessageQueue[1..];
        if outgoingMessageQueue != [] {
          EncapsulateOutgoingMessage(outgoingMessageQueue[0]);
          writing := true;
        }
      } else {
        failed := true;
      }
    }
  }
}
