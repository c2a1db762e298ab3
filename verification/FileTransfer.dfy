/**
 * c/socket/broadcast_file_tx: the file transfer between one client and the server
 * over two lossless FIFO channels, as a state machine whose steps are the packet
 * handlers of client.c and server.c, interleaved in any order.
 */
module FileTransfer {
  import opened Wrappers

  const MAX_BR_PKT_LEN: nat := 1024
  const HEADER_LEN: nat := 16
  const MAX_BR_PAYLOAD_LEN: nat := MAX_BR_PKT_LEN - HEADER_LEN

  datatype Op = DISCOVER | FILE_INFO | CHUNK_READ | TRANSFER_DONE

  /** The header fields; `chunk` is the union of chunk_id and nr_chunks. */
  datatype Packet = Packet(op: Op, ack: int, chunk: int, len: int, payload: seq<int>)

  /**
   * What a run depends on: the requested file, if the server has it, and what the
   * stack of process_fileinfo holds where the reply's `len` is left unset.
   */
  datatype World = World(file: Option<seq<int>>, unsetLen: int)

  // ----- The server -----

  datatype ServerMode = Dispatching | Streaming(lastChunkId: int)

  /** `offset` is the read position of fd, if fd is open. */
  datatype Server = Server(mode: ServerMode, offset: Option<nat>)

  function ChunkCount(size: nat): nat {
    size / MAX_BR_PAYLOAD_LEN + (if size % MAX_BR_PAYLOAD_LEN != 0 then 1 else 0)
  }

  function ProcessFileInfo(w: World): (Server, Packet) {
    match w.file
    case None => (Server(Dispatching, None), Packet(FILE_INFO, 1, -1, w.unsetLen, []))
    case Some(file) =>
      var rest := |file| % MAX_BR_PAYLOAD_LEN;
      (Server(Dispatching, Some(0)), Packet(FILE_INFO, 1, ChunkCount(|file|), if rest != 0 then rest else w.unsetLen, []))
  }

  /** One round of the loop of process_chunkrd: read, reply, and block for the next packet; or leave at the end of the file. */
  function ReadChunk(w: World, s: Server, chunkId: int): (Server, Option<Packet>) {
    if s.offset.None? || w.file.None? || |w.file.value| <= s.offset.value then (s.(mode := Dispatching), None)
    else
      var at := s.offset.value;
      var left := |w.file.value| - at;
      var n := if left < MAX_BR_PAYLOAD_LEN then left else MAX_BR_PAYLOAD_LEN;
      (Server(Streaming(chunkId), Some(at + n)), Some(Packet(CHUNK_READ, 1, chunkId, n, w.file.value[at..at + n])))
  }

  function ServerReceives(w: World, s: Server, p: Packet): (Server, Option<Packet>) {
    match s.mode
    case Streaming(_) =>
      if p.op == TRANSFER_DONE then (s.(mode := Dispatching), None) else ReadChunk(w, s, p.chunk)
    case Dispatching =>
      match p.op
      case DISCOVER => (s, Some(Packet(DISCOVER, 1, 0, HEADER_LEN, [])))
      case FILE_INFO => var (next, reply) := ProcessFileInfo(w); (next, Some(reply))
      case CHUNK_READ => ReadChunk(w, s, p.chunk)
      case TRANSFER_DONE => (s, None)
  }

  // ----- The client -----

  datatype ClientState =
    | SendDiscover | AwaitDiscover | SendFileInfo | AwaitFileInfo | SendChunkRead | AwaitChunk | Finished

  datatype Client = Client(state: ClientState, nrChunks: int, lastChunkSize: int, i: nat, written: seq<int>)

  predicate CanSend(c: Client) {
    c.state.SendDiscover? || c.state.SendFileInfo? || c.state.SendChunkRead?
  }

  predicate IsAwaiting(c: Client) {
    c.state.AwaitDiscover? || c.state.AwaitFileInfo? || c.state.AwaitChunk?
  }

  function ClientSends(c: Client): (Client, Packet)
    requires CanSend(c)
  {
    match c.state
    case SendDiscover => (c.(state := AwaitDiscover), Packet(DISCOVER, 0, 0, 0, []))
    case SendFileInfo => (c.(state := AwaitFileInfo), Packet(FILE_INFO, 0, 0, 0, []))
    case SendChunkRead => (c.(state := AwaitChunk), Packet(CHUNK_READ, 0, c.i, 0, []))
  }

  /** A chunk is acknowledged with TRANSFER_DONE when it is as long as the last one was announced to be. */
  function ClientReceives(c: Client, p: Packet): (Client, Option<Packet>)
    requires IsAwaiting(c)
  {
    match c.state
    case AwaitDiscover =>
      (if p.op == DISCOVER && p.ack != 0 then c.(state := SendFileInfo) else c.(state := Finished), None)
    case AwaitFileInfo =>
      (c.(state := if p.chunk > 0 then SendChunkRead else Finished, nrChunks := p.chunk, lastChunkSize := p.len), None)
    case AwaitChunk =>
      var next := c.(i := c.i + 1, state := if c.i + 1 < c.nrChunks then SendChunkRead else Finished);
      if p.op == CHUNK_READ && p.ack != 0 && p.chunk == c.i && 0 <= p.len <= |p.payload| then
        (next.(written := c.written + p.payload[..p.len]),
         if p.len == c.lastChunkSize then Some(p.(op := TRANSFER_DONE)) else None)
      else (next, None)
  }

  /** Whatever state it is in and whatever arrives, the server only ever replies with the next bytes of the file. */
  lemma ServerServesInOrder(w: World, s: Server, p: Packet)
    ensures var (next, reply) := ServerReceives(w, s, p);
            reply.Some? && reply.value.op == CHUNK_READ ==>
              && w.file.Some? && s.offset.Some? && next.offset.Some? && next.mode == Streaming(p.chunk)
              && s.offset.value < next.offset.value <= |w.file.value|
              && next.offset.value - s.offset.value <= MAX_BR_PAYLOAD_LEN
              && (next.offset.value - s.offset.value < MAX_BR_PAYLOAD_LEN ==> next.offset.value == |w.file.value|)
              && reply.value == Packet(CHUNK_READ, 1, p.chunk, next.offset.value - s.offset.value,
                                       w.file.value[s.offset.value..next.offset.value])
    ensures var (next, reply) := ServerReceives(w, s, p);
            reply == None ==>
              && next.mode == Dispatching && next.offset == s.offset
              && (p.op == TRANSFER_DONE || (w.file.Some? && s.offset.Some? ==> s.offset.value >= |w.file.value|))
    ensures s.mode == Dispatching && p.op == DISCOVER ==> ServerReceives(w, s, p) == (s, Some(Packet(DISCOVER, 1, 0, 16, [])))
    ensures p.op == TRANSFER_DONE ==> ServerReceives(w, s, p) == (s.(mode := Dispatching), None)
  {
  }

  /** The reply to FILE_INFO: -1 for a missing file, else how many payloads the file takes and how long the last one is. */
  lemma FileInfoMeans(w: World, s: Server, p: Packet)
    requires s.mode == Dispatching && p.op == FILE_INFO
    ensures var (next, reply) := ServerReceives(w, s, p);
            && next.mode == Dispatching && (next.offset == if w.file.None? then None else Some(0))
            && reply.Some? && reply.value.op == FILE_INFO && reply.value.ack == 1 && reply.value.payload == []
            && (w.file.None? ==> reply.value.chunk == -1 && reply.value.len == w.unsetLen)
            && (w.file.Some? ==>
                  && (reply.value.chunk - 1) * 1008 < |w.file.value| <= reply.value.chunk * 1008
                  && (|w.file.value| % 1008 == 0 ==> reply.value.len == w.unsetLen)
                  && (|w.file.value| % 1008 != 0 ==>
                        reply.value.len == |w.file.value| - (reply.value.chunk - 1) * 1008))
  {
  }

  /** Whatever arrives, the client writes nothing but the chunk it is waiting for, and says so only for one of the announced length. */
  lemma ClientWritesItsChunk(c: Client, p: Packet)
    requires c.state.AwaitChunk?
    ensures var (next, reply) := ClientReceives(c, p);
            var wanted := p.op == CHUNK_READ && p.ack != 0 && p.chunk == c.i && 0 <= p.len <= |p.payload|;
            && next.i == c.i + 1 && (next.state.SendChunkRead? <==> next.i < c.nrChunks) && (next.state.Finished? <==> next.i >= c.nrChunks)
            && next.written == c.written + (if wanted then p.payload[..p.len] else [])
            && next.nrChunks == c.nrChunks && next.lastChunkSize == c.lastChunkSize
            && (reply.Some? <==> wanted && p.len == c.lastChunkSize)
            && (reply.Some? ==> reply.value == p.(op := TRANSFER_DONE))
  {
  }

  /** An answer to DISCOVER or FILE_INFO that does not say go on ends the client with nothing written. */
  lemma ClientGivesUp(c: Client, p: Packet)
    requires c.state.AwaitDiscover? || c.state.AwaitFileInfo?
    ensures var (next, reply) := ClientReceives(c, p);
            && reply == None && next.written == c.written && next.i == c.i
            && (c.state.AwaitDiscover? ==> next == c.(state := if p.op == DISCOVER && p.ack != 0 then SendFileInfo else Finished))
            && (c.state.AwaitFileInfo? ==>
                  && next.nrChunks == p.chunk && next.lastChunkSize == p.len
                  && next.state == (if p.chunk > 0 then SendChunkRead else Finished))
  {
  }

  // ----- The handlers as programs -----

  /** The server: `process_pkt` dispatches, and the loop of `process_chunkrd` is where it streams. */
  class ServerProcess {
    var mode: ServerMode
    var offset: Option<nat>

    constructor ()
      ensures Snap() == Server(Dispatching, None)
    {
      mode, offset := Dispatching, None;
    }

    function Snap(): Server
      reads this
    {
      Server(mode, offset)
    }

    method ReadAndSend(w: World, chunkId: int) returns (reply: Option<Packet>)
      modifies this
      ensures (Snap(), reply) == ReadChunk(w, old(Snap()), chunkId)
    {
      if offset.None? || w.file.None? {
        mode := Dispatching;
        return None;
      }
      var bytesRead := |w.file.value| - offset.value;
      if bytesRead > MAX_BR_PAYLOAD_LEN {
        bytesRead := MAX_BR_PAYLOAD_LEN;
      }
      if bytesRead <= 0 {
        mode := Dispatching;
        return None;
      }
      var data := w.file.value[offset.value..offset.value + bytesRead];
      offset := Some(offset.value + bytesRead);
      mode := Streaming(chunkId);
      reply := Some(Packet(CHUNK_READ, 1, chunkId, bytesRead, data));
    }

    method Receive(w: World, p: Packet) returns (reply: Option<Packet>)
      modifies this
      ensures (Snap(), reply) == ServerReceives(w, old(Snap()), p)
    {
      if mode.Streaming? {
        if p.op == TRANSFER_DONE {
          mode := Dispatching;
          return None;
        }
        reply := ReadAndSend(w, p.chunk);
        return;
      }
      match p.op {
        case DISCOVER =>
          reply := Some(Packet(DISCOVER, 1, 0, HEADER_LEN, []));
        case FILE_INFO =>
          var nrChunks, len := -1, w.unsetLen;
          offset := None;
          if w.file.Some? {
            offset := Some(0);
            var size := |w.file.value|;
            nrChunks := size / MAX_BR_PAYLOAD_LEN;
            if size % MAX_BR_PAYLOAD_LEN != 0 {
              nrChunks := nrChunks + 1;
              len := size % MAX_BR_PAYLOAD_LEN;
            }
          }
          reply := Some(Packet(FILE_INFO, 1, nrChunks, len, []));
        case CHUNK_READ =>
          reply := ReadAndSend(w, p.chunk);
        case TRANSFER_DONE =>
          reply := None;
      }
    }
  }

  /** The client: `send_discover`, `fetch_file_info` and the chunk loop of `fetch_file`. */
  class ClientProcess {
    var state: ClientState
    var nrChunks: int
    var lastChunkSize: int
    var i: nat
    var written: seq<int>

    constructor ()
      ensures Snap() == Client(SendDiscover, 0, 0, 0, [])
    {
      state, nrChunks, lastChunkSize, i, written := SendDiscover, 0, 0, 0, [];
    }

    function Snap(): Client
      reads this
    {
      Client(state, nrChunks, lastChunkSize, i, written)
    }

    method Send() returns (p: Packet)
      requires CanSend(Snap())
      modifies this
      ensures (Snap(), p) == ClientSends(old(Snap()))
    {
      if state.SendDiscover? {
        state := AwaitDiscover;
        p := Packet(DISCOVER, 0, 0, 0, []);
      } else if state.SendFileInfo? {
        state := AwaitFileInfo;
        p := Packet(FILE_INFO, 0, 0, 0, []);
      } else {
        state := AwaitChunk;
        p := Packet(CHUNK_READ, 0, i, 0, []);
      }
    }

    method Receive(p: Packet) returns (reply: Option<Packet>)
      requires IsAwaiting(Snap())
      modifies this
      ensures (Snap(), reply) == ClientReceives(old(Snap()), p)
    {
      reply := None;
      if state.AwaitDiscover? {
        state := if p.op == DISCOVER && p.ack != 0 then SendFileInfo else Finished;
      } else if state.AwaitFileInfo? {
        nrChunks, lastChunkSize := p.chunk, p.len;
        state := if nrChunks > 0 then SendChunkRead else Finished;
      } else {
        if p.op == CHUNK_READ && p.ack != 0 && p.chunk == i && 0 <= p.len <= |p.payload| {
          if p.len == lastChunkSize {
            reply := Some(p.(op := TRANSFER_DONE));
          }
          written := written + p.payload[..p.len];
        }
        i := i + 1;
        state := if i < nrChunks then SendChunkRead else Finished;
      }
    }
  }

  // ----- The two together -----

  datatype State = State(client: Client, server: Server, toServer: seq<Packet>, toClient: seq<Packet>)

  ghost predicate Init(s: State) {
    s == State(Client(SendDiscover, 0, 0, 0, []), Server(Dispatching, None), [], [])
  }

  function Append(channel: seq<Packet>, p: Option<Packet>): seq<Packet> {
    if p.None? then channel else channel + [p.value]
  }

  datatype Step = ClientSend | ClientReceive | ServerReceive

  predicate Enabled(s: State, step: Step) {
    match step
    case ClientSend => CanSend(s.client)
    case ClientReceive => IsAwaiting(s.client) && s.toClient != []
    case ServerReceive => s.toServer != []
  }

  function Take(w: World, s: State, step: Step): State
    requires Enabled(s, step)
  {
    match step
    case ClientSend =>
      var (c, p) := ClientSends(s.client);
      s.(client := c, toServer := s.toServer + [p])
    case ClientReceive =>
      var (c, p) := ClientReceives(s.client, s.toClient[0]);
      s.(client := c, toClient := s.toClient[1..], toServer := Append(s.toServer, p))
    case ServerReceive =>
      var (server, p) := ServerReceives(w, s.server, s.toServer[0]);
      s.(server := server, toServer := s.toServer[1..], toClient := Append(s.toClient, p))
  }

  ghost predicate IsRun(w: World, states: seq<State>, steps: seq<Step>) {
    && |states| == |steps| + 1
    && Init(states[0])
    && forall k :: 0 <= k < |steps| ==> Enabled(states[k], steps[k]) && states[k + 1] == Take(w, states[k], steps[k])
  }

  // ----- What every reachable state satisfies -----

  function Size(w: World): nat {
    if w.file.None? then 0 else |w.file.value|
  }

  function Min(a: nat, b: nat): nat {
    if a < b then a else b
  }

  /** Where chunk k starts. */
  function Start(w: World, k: nat): nat {
    Min(k * MAX_BR_PAYLOAD_LEN, Size(w))
  }

  /** The length of an exact multiple's chunks is the unset length by accident. */
  predicate EveryChunkLooksLast(w: World) {
    Size(w) % MAX_BR_PAYLOAD_LEN == 0 && w.unsetLen == MAX_BR_PAYLOAD_LEN
  }

  /** The client sends TRANSFER_DONE after chunk k. */
  predicate DoneAfter(w: World, k: nat) {
    if Size(w) % MAX_BR_PAYLOAD_LEN != 0 then k + 1 == ChunkCount(Size(w)) else EveryChunkLooksLast(w)
  }

  /** The server between two chunk requests: TRANSFER_DONE for the last chunk is due, taken, or not meant to come. */
  ghost predicate BetweenChunks(w: World, s: State, i: nat, requests: seq<Packet>) {
    && s.toClient == []
    && s.server.offset == Some(Start(w, i))
    && if i == 0 then s.server.mode == Dispatching && s.toServer == requests
       else if DoneAfter(w, i - 1) then
         || (s.server.mode == Dispatching && s.toServer == requests)
         || (s.server.mode == Streaming(i - 1) && |s.toServer| == 1 + |requests|
             && s.toServer[0].op == TRANSFER_DONE && s.toServer[1..] == requests)
       else s.server.mode == Streaming(i - 1) && s.toServer == requests
  }

  ghost predicate ChunkInFlight(w: World, s: State, i: nat)
    requires w.file.Some?
  {
    && s.toServer == []
    && s.server == Server(Streaming(i), Some(Start(w, i + 1)))
    && Start(w, i) < Start(w, i + 1)
    && s.toClient == [Packet(CHUNK_READ, 1, i, Start(w, i + 1) - Start(w, i), w.file.value[Start(w, i)..Start(w, i + 1)])]
  }

  ghost predicate Fetching(w: World, s: State) {
    && w.file.Some?
    && s.client.nrChunks == ChunkCount(Size(w)) > 0
    && s.client.lastChunkSize == (if Size(w) % MAX_BR_PAYLOAD_LEN != 0 then Size(w) % MAX_BR_PAYLOAD_LEN else w.unsetLen)
    && s.client.i <= s.client.nrChunks
    && s.client.written == w.file.value[..Start(w, s.client.i)]
  }

  ghost predicate Inv(w: World, s: State) {
    var quiet := s.toServer == [] && s.toClient == [] && s.server.mode == Dispatching;
    var nothingYet := s.client.written == [] && s.client.i == 0 && s.client.nrChunks == 0;
    match s.client.state
    case SendDiscover => quiet && nothingYet
    case AwaitDiscover =>
      && nothingYet && s.server.mode == Dispatching
      && ((s.toServer == [Packet(DISCOVER, 0, 0, 0, [])] && s.toClient == [])
          || (s.toServer == [] && s.toClient == [Packet(DISCOVER, 1, 0, HEADER_LEN, [])]))
    case SendFileInfo => quiet && nothingYet
    case AwaitFileInfo =>
      && nothingYet && s.server.mode == Dispatching
      && ((s.toServer == [Packet(FILE_INFO, 0, 0, 0, [])] && s.toClient == [])
          || (s.toServer == [] && s.server == ProcessFileInfo(w).0 && s.toClient == [ProcessFileInfo(w).1]))
    case SendChunkRead => Fetching(w, s) && s.client.i < s.client.nrChunks && BetweenChunks(w, s, s.client.i, [])
    case AwaitChunk =>
      && Fetching(w, s) && s.client.i < s.client.nrChunks
      && (BetweenChunks(w, s, s.client.i, [Packet(CHUNK_READ, 0, s.client.i, 0, [])]) || ChunkInFlight(w, s, s.client.i))
    case Finished =>
      if Size(w) == 0 then quiet && s.client.written == [] && s.client.nrChunks == (if w.file.None? then -1 else 0)
      else Fetching(w, s) && s.client.i == s.client.nrChunks && BetweenChunks(w, s, s.client.i, [])
  }

  lemma ChunkBounds(w: World, k: nat)
    requires k < ChunkCount(Size(w))
    ensures Start(w, k) == k * MAX_BR_PAYLOAD_LEN < Size(w)
    ensures Start(w, k) < Start(w, k + 1)
    ensures k + 1 < ChunkCount(Size(w)) ==> Start(w, k + 1) == Start(w, k) + MAX_BR_PAYLOAD_LEN
    ensures k + 1 == ChunkCount(Size(w)) ==> Start(w, k + 1) == Size(w)
    ensures k + 1 == ChunkCount(Size(w)) && Size(w) % MAX_BR_PAYLOAD_LEN != 0 ==>
      Start(w, k + 1) - Start(w, k) == Size(w) % MAX_BR_PAYLOAD_LEN
    ensures Size(w) % MAX_BR_PAYLOAD_LEN == 0 ==> Start(w, k + 1) - Start(w, k) == MAX_BR_PAYLOAD_LEN
  {
  }

  lemma ClientSendKeeps(w: World, s: State)
    requires Inv(w, s) && Enabled(s, ClientSend)
    ensures Inv(w, Take(w, s, ClientSend))
  {
  }

  lemma ServerReceiveKeeps(w: World, s: State)
    requires Inv(w, s) && Enabled(s, ServerReceive)
    ensures Inv(w, Take(w, s, ServerReceive))
  {
    var next := Take(w, s, ServerReceive);
    if s.client.state.AwaitChunk? {
      ChunkBounds(w, s.client.i);
      if s.toServer[0].op != TRANSFER_DONE {
        assert ChunkInFlight(w, next, s.client.i);
      }
    }
  }

  lemma ClientReceiveKeeps(w: World, s: State)
    requires Inv(w, s) && Enabled(s, ClientReceive)
    ensures Inv(w, Take(w, s, ClientReceive))
  {
    if s.client.state.AwaitChunk? {
      ChunkArrives(w, s);
    } else {
      hide ChunkInFlight;
    }
  }

  lemma ChunkArrives(w: World, s: State)
    requires Inv(w, s) && Enabled(s, ClientReceive) && s.client.state.AwaitChunk?
    ensures Inv(w, Take(w, s, ClientReceive))
  {
    var i := s.client.i;
    var p := s.toClient[0];
    assert ChunkInFlight(w, s, i);
    ChunkBounds(w, i);
    WholePayload(w.file.value, Start(w, i), Start(w, i + 1), p.payload);
    assert p.len == s.client.lastChunkSize <==> DoneAfter(w, i);
    hide ChunkCount, Start, DoneAfter;
    var next := Take(w, s, ClientReceive);
    assert p.payload[..p.len] == p.payload;
    assert next.client.written == w.file.value[..Start(w, i + 1)];
    assert BetweenChunks(w, next, i + 1, []);
  }

  lemma WholePayload(file: seq<int>, from: nat, to: nat, payload: seq<int>)
    requires from <= to <= |file| && payload == file[from..to]
    ensures payload[..|payload|] == payload
    ensures file[..from] + payload == file[..to]
  {
  }

  lemma {:induction false} ReachableKeepsInv(w: World, states: seq<State>, steps: seq<Step>, k: nat)
    requires IsRun(w, states, steps) && k <= |steps|
    ensures Inv(w, states[k])
    decreases k
  {
    if k > 0 {
      ReachableKeepsInv(w, states, steps, k - 1);
      match steps[k - 1] {
        case ClientSend => ClientSendKeeps(w, states[k - 1]);
        case ClientReceive => ClientReceiveKeeps(w, states[k - 1]);
        case ServerReceive => ServerReceiveKeeps(w, states[k - 1]);
      }
    }
  }

  // ----- The results -----

  /** The file bytes in the packets on their way to the client. */
  function InFlight(channel: seq<Packet>): seq<int> {
    if channel == [] then [] else channel[0].payload + InFlight(channel[1..])
  }

  /**
   * In every reachable state, whatever the file: what the client has written is a
   * prefix of the file, and together with the chunk on its way it ends at the
   * server's read offset; at most one datagram is outstanding unless every chunk
   * looks like the last one; and TRANSFER_DONE is only sent after the final chunk
   * unless every chunk looks like the last one.
   */
  lemma TransferIsSafe(w: World, states: seq<State>, steps: seq<Step>, k: nat)
    requires IsRun(w, states, steps) && k <= |steps|
    ensures var s := states[k];
            && (w.file.None? ==> s.client.written == [])
            && (w.file.Some? ==> s.client.written <= w.file.value)
            && (w.file.Some? && s.client.nrChunks > 0 ==>
                  s.server.offset.Some? && s.server.offset.value <= |w.file.value|
                  && s.client.written + InFlight(s.toClient) == w.file.value[..s.server.offset.value])
            && (!EveryChunkLooksLast(w) ==> |s.toServer| + |s.toClient| <= 1)
            && (!EveryChunkLooksLast(w) && (exists p :: p in s.toServer && p.op == TRANSFER_DONE) ==>
                  s.client.state.Finished? && s.client.i == s.client.nrChunks)
  {
    ReachableKeepsInv(w, states, steps, k);
    var s := states[k];
    if w.file.Some? && s.client.state.AwaitChunk? && s.toClient != [] {
      var i := s.client.i;
      assert s.toClient[1..] == [];
      assert w.file.value[..Start(w, i)] + w.file.value[Start(w, i)..Start(w, i + 1)] == w.file.value[..Start(w, i + 1)];
    }
  }

  /** What is left to do: packets to answer, and rounds to go. */
  ghost function Remaining(w: World, s: State): int {
    var rounds := match s.client.state
      case SendDiscover => 2 * ChunkCount(Size(w)) + 6
      case AwaitDiscover => 2 * ChunkCount(Size(w)) + 5
      case SendFileInfo => 2 * ChunkCount(Size(w)) + 4
      case AwaitFileInfo => 2 * ChunkCount(Size(w)) + 3
      case SendChunkRead => 2 * (s.client.nrChunks - s.client.i) + 1
      case AwaitChunk => 2 * (s.client.nrChunks - s.client.i)
      case Finished => 0;
    3 * rounds + |s.toServer|
  }

  lemma EveryStepMakesProgress(w: World, s: State, step: Step)
    requires Inv(w, s) && Enabled(s, step)
    ensures 0 <= Remaining(w, Take(w, s, step)) < Remaining(w, s)
  {
    match step {
      case ClientSend => ClientSendKeeps(w, s);
      case ClientReceive => ClientReceiveKeeps(w, s);
      case ServerReceive => ServerReceiveKeeps(w, s);
    }
  }

  lemma {:induction false} RunIsBounded(w: World, states: seq<State>, steps: seq<Step>, k: nat)
    requires IsRun(w, states, steps) && k <= |steps|
    ensures Inv(w, states[k])
    ensures k + Remaining(w, states[k]) <= 6 * ChunkCount(Size(w)) + 18
    ensures Remaining(w, states[k]) >= 0
    decreases k
  {
    hide Inv, Take, Remaining, Init;
    ReachableKeepsInv(w, states, steps, k);
    if k == 0 {
      RemainingAtStart(w, states[0]);
    } else {
      RunIsBounded(w, states, steps, k - 1);
      EveryStepMakesProgress(w, states[k - 1], steps[k - 1]);
    }
  }

  lemma RemainingAtStart(w: World, s: State)
    requires Init(s)
    ensures Remaining(w, s) == 6 * ChunkCount(Size(w)) + 18
  {
  }

  /**
   * Every run ends, after a number of steps bounded by the number of chunks, and
   * where it cannot go on the client has finished with the whole file, nothing is
   * in flight, and the server is back in its dispatcher exactly if the file is
   * empty or missing, its size is not a multiple of the payload size, or the
   * length left unset in the FILE_INFO reply happens to be the payload size.
   */
  lemma TransferCompletes(w: World, states: seq<State>, steps: seq<Step>)
    requires IsRun(w, states, steps)
    ensures |steps| <= 6 * ChunkCount(Size(w)) + 18
    ensures var s := states[|steps|];
            (forall step :: !Enabled(s, step)) ==>
              && s.client.state.Finished? && s.toServer == [] && s.toClient == []
              && s.client.written == (if w.file.None? then [] else w.file.value)
              && (s.client.nrChunks < 0 <==> w.file.None?)
              && (w.file.Some? ==> s.client.nrChunks * MAX_BR_PAYLOAD_LEN >= |w.file.value| > (s.client.nrChunks - 1) * MAX_BR_PAYLOAD_LEN)
              && (s.server.mode == Dispatching <==>
                    Size(w) == 0 || Size(w) % MAX_BR_PAYLOAD_LEN != 0 || w.unsetLen == MAX_BR_PAYLOAD_LEN)
  {
    RunIsBounded(w, states, steps, |steps|);
    var s := states[|steps|];
    if forall step :: !Enabled(s, step) {
      assert !Enabled(s, ClientSend) && !Enabled(s, ClientReceive) && !Enabled(s, ServerReceive);
      if Size(w) > 0 {
        ChunkBounds(w, ChunkCount(Size(w)) - 1);
      }
    }
  }

  lemma RunExtends(w: World, states: seq<State>, steps: seq<Step>, step: Step)
    requires IsRun(w, states, steps) && Enabled(states[|steps|], step)
    ensures IsRun(w, states + [Take(w, states[|steps|], step)], steps + [step])
  {
    hide Enabled, Take, Init;
    var longerStates, longerSteps := states + [Take(w, states[|steps|], step)], steps + [step];
    forall k | 0 <= k < |longerSteps|
      ensures Enabled(longerStates[k], longerSteps[k]) && longerStates[k + 1] == Take(w, longerStates[k], longerSteps[k])
    {
      if k < |steps| {
        assert longerStates[k] == states[k] && longerSteps[k] == steps[k] && longerStates[k + 1] == states[k + 1];
      }
    }
  }

  /** Whatever has happened so far, the run can be continued to its end. */
  lemma RunCanBeCompleted(w: World, states: seq<State>, steps: seq<Step>) returns (allStates: seq<State>, allSteps: seq<Step>)
    requires IsRun(w, states, steps)
    ensures IsRun(w, allStates, allSteps) && states <= allStates && steps <= allSteps
    ensures forall step :: !Enabled(allStates[|allSteps|], step)
    decreases 6 * ChunkCount(Size(w)) + 18 - |steps|
  {
    hide Enabled, Take, Init, Inv, Remaining, ChunkCount, IsRun;
    allStates, allSteps := states, steps;
    RunHasOneMoreState(w, states, steps);
    if step :| Enabled(states[|steps|], step) {
      var longerStates, longerSteps := states + [Take(w, states[|steps|], step)], steps + [step];
      RunExtends(w, states, steps, step);
      RunIsBounded(w, longerStates, longerSteps, |longerSteps|);
      allStates, allSteps := RunCanBeCompleted(w, longerStates, longerSteps);
    }
  }

  lemma RunHasOneMoreState(w: World, states: seq<State>, steps: seq<Step>)
    requires IsRun(w, states, steps)
    ensures |states| == |steps| + 1
  {
  }

  lemma RunStarts(w: World, s: State)
    requires Init(s)
    ensures IsRun(w, [s], [])
  {
  }

  /**
   * The two processes run together over two queues, in the order a schedule asks for
   * where it can: every schedule brings the whole file to the client.
   */
  method Transfer(w: World, schedule: nat -> Step) returns (client: ClientProcess, server: ServerProcess)
    ensures client.Snap().state.Finished?
    ensures client.written == (if w.file.None? then [] else w.file.value)
    ensures client.nrChunks < 0 <==> w.file.None?
    ensures server.mode == Dispatching <==>
              Size(w) == 0 || Size(w) % MAX_BR_PAYLOAD_LEN != 0 || w.unsetLen == MAX_BR_PAYLOAD_LEN
  {
    hide ClientSends, ClientReceives, ServerReceives, Inv, Remaining, ChunkCount, IsRun, Init;
    client := new ClientProcess();
    server := new ServerProcess();
    var toServer: seq<Packet>, toClient: seq<Packet> := [], [];
    ghost var states, steps := [State(client.Snap(), server.Snap(), toServer, toClient)], [];
    assert Init(states[0]) by {
      InitialState(states[0]);
    }
    RunStarts(w, states[0]);
    var rounds := 0;
    while CanSend(client.Snap()) || (IsAwaiting(client.Snap()) && toClient != []) || toServer != []
      invariant fresh(client) && fresh(server)
      invariant IsRun(w, states, steps) && |states| == |steps| + 1 && rounds == |steps|
      invariant states[|steps|] == State(client.Snap(), server.Snap(), toServer, toClient)
      invariant |steps| <= 6 * ChunkCount(Size(w)) + 18
      decreases 6 * ChunkCount(Size(w)) + 18 - |steps|
    {
      var step := schedule(rounds);
      if !Enabled(State(client.Snap(), server.Snap(), toServer, toClient), step) {
        step := if CanSend(client.Snap()) then ClientSend else if toServer != [] then ServerReceive else ClientReceive;
      }
      ghost var before := states[|steps|];
      match step {
        case ClientSend =>
          var p := client.Send();
          toServer := toServer + [p];
        case ClientReceive =>
          var reply := client.Receive(toClient[0]);
          toClient, toServer := toClient[1..], Append(toServer, reply);
        case ServerReceive =>
          var reply := server.Receive(w, toServer[0]);
          toServer, toClient := toServer[1..], Append(toClient, reply);
      }
      assert State(client.Snap(), server.Snap(), toServer, toClient) == Take(w, before, step);
      RunExtends(w, states, steps, step);
      states, steps := states + [Take(w, before, step)], steps + [step];
      RunIsBounded(w, states, steps, |steps|);
      rounds := rounds + 1;
    }
    TransferCompletes(w, states, steps);
  }

  lemma InitialState(s: State)
    requires s == State(Client(SendDiscover, 0, 0, 0, []), Server(Dispatching, None), [], [])
    ensures Init(s)
  {
  }

  /** A file of exactly one payload arrives, and the server waits for ever for a TRANSFER_DONE. */
  lemma OnePayloadLeavesServerWaiting(file: seq<int>) returns (states: seq<State>, steps: seq<Step>)
    requires |file| == MAX_BR_PAYLOAD_LEN
    ensures var w := World(Some(file), 0);
            && IsRun(w, states, steps)
            && var s := states[|steps|];
               (forall step :: !Enabled(s, step)) && s.client.written == file && s.server.mode == Streaming(0)
  {
    var w := World(Some(file), 0);
    var start := State(Client(SendDiscover, 0, 0, 0, []), Server(Dispatching, None), [], []);
    states, steps := RunCanBeCompleted(w, [start], []);
    TransferCompletes(w, states, steps);
    ReachableKeepsInv(w, states, steps, |steps|);
  }
}
