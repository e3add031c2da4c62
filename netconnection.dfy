/** `connection<T>`: the per-socket object. Its asio handlers are modelled as
    methods that the event loop calls when an asynchronous operation
    completes (`ok` is the completion's `!ec`); the socket itself is the
    `open` flag plus the bytes written to it. */
module NetConnection {
  import opened Bytes
  import opened NetMessage
  import opened NetWire
  import opened NetQueue

  datatype Owner = ServerSide | ClientSide

  /** The one outbound write that may be in flight. */
  datatype WriteStage = Idle | WritingHeader | WritingBody

  /** The one inbound read that may be in flight. */
  datatype ReadStage = NotReading | ReadingValidation | ReadingHeader | ReadingBody

  /** `owned_message<T>`: the message plus, on a server, the connection it came from. */
  datatype OwnedMessage = OwnedMessage(remote: Connection?, msg: Frame)

  class Connection {
    const owner: Owner
    /** `scramble`, given the version number it reads; its body is not modelled. */
    const scramble: (real, bv64) -> bv64
    /** m_qMessagesIn: the owner's shared incoming queue */
    const inQ: TsQueue<OwnedMessage>

    /** m_qMessagesOut, a member held by value: front first */
    var outQ: seq<Frame>
    var versionNumber: real
    var open: bool
    var id: u32
    var handshakeOut: bv64
    var handshakeIn: bv64
    var handshakeCheck: bv64
    /** m_msgTemporaryIn: the one incoming message, reused for every read */
    var temp: Frame
    var writing: WriteStage
    var reading: ReadStage
    /** a writeValidation is in flight */
    var validationWrite: bool

    /** The messages whose header and body were both written, in order. */
    ghost var written: seq<Frame>
    /** Every message ever passed to send, in order. */
    ghost var submitted: seq<Frame>
    /** A body write failed after its header went out. */
    ghost var torn: bool

    /** At most one write is in flight and it always concerns the front of
        the queue, which holds what was submitted and not yet written. */
    ghost predicate Valid()
      reads this
    {
      && (writing != Idle ==> outQ != [])
      && (writing == WritingBody ==> outQ[0].body != [])
      && (torn ==> outQ != [] && writing == Idle)
      && submitted == written + outQ
    }

    /** The bytes written from the outgoing queue, in order: every written
        message, then the header of the front one when its body is being
        written or failed to be. */
    ghost function Sent(): seq<byte>
      reads this
      requires Valid()
    {
      Serialize(written) + (if writing == WritingBody || torn then HeaderBytes(outQ[0].header) else [])
    }

    twostate predicate InboundSame()
      reads this
    {
      && open == old(open) && reading == old(reading) && temp == old(temp)
      && id == old(id) && versionNumber == old(versionNumber)
      && handshakeOut == old(handshakeOut) && handshakeIn == old(handshakeIn)
      && handshakeCheck == old(handshakeCheck) && validationWrite == old(validationWrite)
    }

    twostate predicate OutboundSame()
      reads this
    {
      && writing == old(writing) && outQ == old(outQ)
      && written == old(written) && submitted == old(submitted) && torn == old(torn)
    }

    /** The constructor: a server side connection wraps an accepted (open)
        socket and prepares its challenge from the clock; a client side one
        is not connected yet. */
    constructor (owner: Owner, clock: bv64, scramble: (real, bv64) -> bv64, inQ: TsQueue<OwnedMessage>)
      ensures this.owner == owner && this.scramble == scramble && this.inQ == inQ
      ensures outQ == []
      ensures Valid() && writing == Idle && reading == NotReading && !validationWrite
      ensures Sent() == [] && written == [] && submitted == [] && !torn
      ensures versionNumber == 1.0 && id == 0 && temp == Frame(Header(0, 0), [])
      ensures open <==> owner == ServerSide
      ensures handshakeIn == 0
      ensures owner == ServerSide ==> handshakeOut == clock && handshakeCheck == scramble(1.0, clock)
      ensures owner == ClientSide ==> handshakeOut == 0 && handshakeCheck == 0
    {
      this.owner := owner;
      this.scramble := scramble;
      this.inQ := inQ;
      outQ := [];
      versionNumber := 1.0;
      open := owner == ServerSide;
      id := 0;
      temp := Frame(Header(0, 0), []);
      writing := Idle;
      reading := NotReading;
      validationWrite := false;
      written, submitted, torn := [], [], false;
      handshakeIn := 0;
      if owner == ServerSide {
        handshakeOut := clock;
        handshakeCheck := scramble(1.0, clock);
      } else {
        handshakeOut := 0;
        handshakeCheck := 0;
      }
    }

    /** Who an incoming message is attributed to: this connection on a server,
        nobody on a client. */
    function Remote(): (c: Connection?)
      ensures c == (if owner == ServerSide then this else null)
    {
      if owner == ServerSide then this else null
    }

    /** send: queue the message; start writing only if nothing was queued. */
    method Send(msg: Frame)
      requires Valid()
      modifies this
      ensures Valid() && InboundSame()
      ensures outQ == old(outQ) + [msg]
      ensures submitted == old(submitted) + [msg]
      ensures writing == (if old(outQ) == [] then WritingHeader else old(writing))
      ensures Sent() == old(Sent()) && written == old(written) && torn == old(torn)
    {
      var writingMessage := outQ != [];
      outQ := outQ + [msg];
      submitted := submitted + [msg];
      if !writingMessage {
        writing := WritingHeader;
      }
    }

    /** writeHeader's completion. */
    method OnHeaderWritten(ok: bool)
      requires Valid() && writing == WritingHeader
      modifies this
      ensures Valid()
      ensures submitted == old(submitted) && torn == old(torn)
      ensures reading == old(reading) && temp == old(temp) && validationWrite == old(validationWrite)
      ensures var f := old(outQ)[0];
        if ok && old(open) then
          && open
          && Sent() == old(Sent()) + HeaderBytes(f.header)
          && (if f.body != [] then
                writing == WritingBody && outQ == old(outQ) && written == old(written)
              else
                && outQ == old(outQ)[1..] && written == old(written) + [f]
                && writing == (if outQ == [] then Idle else WritingHeader))
        else
          !open && writing == Idle && outQ == old(outQ)
          && Sent() == old(Sent()) && written == old(written)
    {
      var f := outQ[0];
      if ok && open {
        if |f.body| > 0 {
          writing := WritingBody;
        } else {
          outQ := outQ[1..];
          SerializeAppend(written, f);
          written := written + [f];
          assert submitted == written + outQ;
          writing := if outQ == [] then Idle else WritingHeader;
        }
      } else {
        open := false;
        writing := Idle;
      }
    }

    /** writeBody's completion. */
    method OnBodyWritten(ok: bool)
      requires Valid() && writing == WritingBody
      modifies this
      ensures Valid()
      ensures submitted == old(submitted)
      ensures reading == old(reading) && temp == old(temp) && validationWrite == old(validationWrite)
      ensures var f := old(outQ)[0];
        if ok && old(open) then
          && open && !torn
          && Sent() == old(Sent()) + f.body
          && outQ == old(outQ)[1..] && written == old(written) + [f]
          && writing == (if outQ == [] then Idle else WritingHeader)
        else
          !open && writing == Idle && torn && outQ == old(outQ)
          && Sent() == old(Sent()) && written == old(written)
    {
      var f := outQ[0];
      if ok && open {
        outQ := outQ[1..];
        SerializeAppend(written, f);
        written := written + [f];
        writing := if outQ == [] then Idle else WritingHeader;
      } else {
        open := false;
        writing := Idle;
        torn := true;
      }
    }

    /** addToIncomingMessageQueue, minus the readHeader it chains to. */
    method Deliver()
      modifies inQ
      ensures inQ.items == old(inQ.items) + [OwnedMessage(Remote(), temp)]
    {
      inQ.PushBack(OwnedMessage(Remote(), temp));
    }

    /** readHeader's completion with the header `h` read into the held
        message, as written: a size-0 header delivers the held message with
        whatever body it still has. `overrun` reports a size of 1 to 7, where
        the source's resize throws; nothing catches the exception on the
        context's thread, so std::terminate ends the process. */
    method OnHeaderRead(ok: bool, h: Header) returns (overrun: bool)
      requires reading == ReadingHeader
      modifies this, inQ
      ensures OutboundSame()
      ensures validationWrite == old(validationWrite) && id == old(id)
      ensures if !(ok && old(open)) then
          !overrun && !open && reading == NotReading
          && temp == old(temp) && inQ.items == old(inQ.items)
        else
          open && match OnHeaderAsWritten(old(temp), h)
          case Overrun =>
            overrun && reading == NotReading
            && temp == old(temp).(header := h) && inQ.items == old(inQ.items)
          case Deliver(m) =>
            !overrun && reading == ReadingHeader && temp == m
            && inQ.items == old(inQ.items) + [OwnedMessage(Remote(), m)]
          case AwaitBody(m) =>
            !overrun && reading == ReadingBody && temp == m && inQ.items == old(inQ.items)
    {
      overrun := false;
      if ok && open {
        match OnHeaderAsWritten(temp, h)
        case Overrun =>
          temp := temp.(header := h);
          overrun := true;
          reading := NotReading;
        case Deliver(m) =>
          temp := m;
          Deliver();
          reading := ReadingHeader;
        case AwaitBody(m) =>
          temp := m;
          reading := ReadingBody;
      } else {
        open := false;
        reading := NotReading;
      }
    }

    /** readBody's completion: exactly |body| bytes arrived. */
    method OnBodyRead(ok: bool, bytes: seq<byte>)
      requires reading == ReadingBody && |bytes| == |temp.body|
      modifies this, inQ
      ensures OutboundSame()
      ensures validationWrite == old(validationWrite) && id == old(id)
      ensures if ok && old(open) then
          open && reading == ReadingHeader && temp == old(temp).(body := bytes)
          && inQ.items == old(inQ.items) + [OwnedMessage(Remote(), temp)]
        else
          !open && reading == NotReading && temp == old(temp) && inQ.items == old(inQ.items)
    {
      if ok && open {
        temp := temp.(body := bytes);
        Deliver();
        reading := ReadingHeader;
      } else {
        open := false;
        reading := NotReading;
      }
    }

    /** connectToClient: on an open server side connection, record the id,
        send the challenge and wait for the answer. */
    method ConnectToClient(uid: u32)
      requires reading == NotReading
      modifies this
      ensures OutboundSame()
      ensures open == old(open) && temp == old(temp) && versionNumber == old(versionNumber)
      ensures handshakeOut == old(handshakeOut) && handshakeIn == old(handshakeIn)
      ensures handshakeCheck == old(handshakeCheck)
      ensures if owner == ServerSide && old(open) then
          id == uid && validationWrite && reading == ReadingValidation
        else
          id == old(id) && validationWrite == old(validationWrite) && reading == NotReading
    {
      if owner == ServerSide && open {
        id := uid;
        validationWrite := true;
        reading := ReadingValidation;
      }
    }

    /** connectToServer's async_connect completion on a client side connection. */
    method OnConnected(ok: bool)
      requires owner == ClientSide && !open && reading == NotReading
      modifies this
      ensures OutboundSame()
      ensures temp == old(temp) && id == old(id) && versionNumber == old(versionNumber)
      ensures validationWrite == old(validationWrite)
      ensures handshakeOut == old(handshakeOut) && handshakeIn == old(handshakeIn)
      ensures handshakeCheck == old(handshakeCheck)
      ensures open == ok
      ensures reading == (if ok then ReadingValidation else NotReading)
    {
      if ok {
        open := true;
        reading := ReadingValidation;
      }
    }

    /** readValidation's completion with the 8 bytes `value`. A server accepts
        exactly when the answer equals its expected check; a client answers
        the challenge with its scramble. */
    method OnValidationRead(ok: bool, value: bv64) returns (validated: bool)
      requires reading == ReadingValidation
      modifies this
      ensures OutboundSame()
      ensures temp == old(temp) && id == old(id) && versionNumber == old(versionNumber)
      ensures handshakeCheck == old(handshakeCheck)
      ensures if ok && old(open) then
          && handshakeIn == value
          && (if owner == ServerSide then
                && handshakeOut == old(handshakeOut) && validationWrite == old(validationWrite)
                && (validated <==> value == handshakeCheck)
                && open == validated
                && reading == (if validated then ReadingHeader else NotReading)
              else
                && !validated && open && reading == NotReading && validationWrite
                && handshakeOut == scramble(versionNumber, value))
        else
          && !validated && !open && reading == NotReading
          && handshakeIn == old(handshakeIn) && handshakeOut == old(handshakeOut)
          && validationWrite == old(validationWrite)
    {
      validated := false;
      if ok && open {
        handshakeIn := value;
        if owner == ServerSide {
          if handshakeIn == handshakeCheck {
            validated := true;
            reading := ReadingHeader;
          } else {
            open := false;
            reading := NotReading;
          }
        } else {
          handshakeOut := scramble(versionNumber, handshakeIn);
          validationWrite := true;
          reading := NotReading;
        }
      } else {
        open := false;
        reading := NotReading;
      }
    }

    /** writeValidation's completion: a client then starts reading messages. */
    method OnValidationWritten(ok: bool)
      requires validationWrite
      requires owner == ClientSide ==> reading == NotReading
      modifies this
      ensures OutboundSame()
      ensures temp == old(temp) && id == old(id) && versionNumber == old(versionNumber)
      ensures handshakeOut == old(handshakeOut) && handshakeIn == old(handshakeIn)
      ensures handshakeCheck == old(handshakeCheck)
      ensures !validationWrite
      ensures open == (ok && old(open))
      ensures reading == (if ok && old(open) && owner == ClientSide then ReadingHeader else old(reading))
    {
      validationWrite := false;
      if ok && open {
        if owner == ClientSide {
          reading := ReadingHeader;
        }
      } else {
        open := false;
      }
    }
  }

  /** The handshake between a freshly accepted server side connection and a
      client side one, every transfer succeeding: the server sends its
      challenge, the client answers with its scramble, the server compares.
      The server's check is computed in the constructor, before anyone can set
      the connection's version number, so only the client's version matters. */
  method Handshake(clock: bv64, scramble: (real, bv64) -> bv64, serverVersion: real, clientVersion: real)
    returns (validated: bool)
    ensures validated <==> scramble(clientVersion, clock) == scramble(1.0, clock)
  {
    var serverIn := new TsQueue<OwnedMessage>();
    var clientIn := new TsQueue<OwnedMessage>();
    var server := new Connection(ServerSide, clock, scramble, serverIn);
    server.versionNumber := serverVersion;
    var client := new Connection(ClientSide, 0, scramble, clientIn);
    client.versionNumber := clientVersion;
    server.ConnectToClient(7);
    client.OnConnected(true);
    var answered := client.OnValidationRead(true, server.handshakeOut);
    server.OnValidationWritten(true);
    client.OnValidationWritten(true);
    validated := server.OnValidationRead(true, client.handshakeOut);
  }
}
