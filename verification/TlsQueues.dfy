/** The two byte queues of the TLS client in proc_inc/openssl_common.h: bytes waiting for SSL_write and
    bytes waiting for the socket.

    OpenSSL, its output BIO and the socket are oracles: whatever they answer is an input. `Client` is the
    value of the two queues together with four histories: all bytes queued by the application, accepted
    by SSL_write, drained from the output BIO, and sent on the socket. */
module TlsQueues {
  import opened CStrings

  type Bytes = seq<bv8>

  datatype Client = Client(encrypt: Bytes, write: Bytes, queued: Bytes, accepted: Bytes, drained: Bytes, sent: Bytes)

  datatype SslStatus = STATUS_OK | WANT_IO | FAIL

  /** Successive BIO_read answers: chunks, then a last answer `stop` <= 0 with its should-retry flag. */
  datatype BioReads = BioReads(chunks: seq<Bytes>, stop: int, retry: bool)

  /** One SSL_write answer, with the BIO reads that follow it. */
  datatype SslWrite = SslWrite(n: int, status: SslStatus, reads_: BioReads)

  const NEW_CLIENT := Client([], [], [], [], [], [])

  // ---------------------------------------------------------------- the operations as functions

  function SendUnencrypted(c: Client, buf: Bytes): Client {
    c.(encrypt := c.encrypt + buf, queued := c.queued + buf)
  }

  function QueueEncrypted(c: Client, buf: Bytes): Client {
    c.(write := c.write + buf, drained := c.drained + buf)
  }

  function QueueAll(c: Client, chunks: seq<Bytes>): Client
    decreases |chunks|
  {
    if chunks == [] then c else QueueAll(QueueEncrypted(c, chunks[0]), chunks[1..])
  }

  /** SSL_write takes no more than it is offered. */
  function Taken(c: Client, n: int): (k: nat)
    ensures k <= |c.encrypt|
  {
    if n <= 0 then 0 else if n > |c.encrypt| then |c.encrypt| else n
  }

  function Accept(c: Client, n: int): Client {
    c.(encrypt := c.encrypt[Taken(c, n)..], accepted := c.accepted + c.encrypt[..Taken(c, n)])
  }

  /** do_encrypt once the handshake is done; None means the answers run out while it still loops. */
  function Encrypt(c: Client, writes: seq<SslWrite>): (Client, Option<int>)
    decreases |writes|
  {
    if c.encrypt == [] then (c, Some(0))
    else if writes == [] then (c, None)
    else
      var w := writes[0];
      if w.n > 0 then
        var d := QueueAll(Accept(c, w.n), w.reads_.chunks);
        if !w.reads_.retry || w.status == FAIL then (d, Some(-1))
        else if w.reads_.stop == 0 then (d, Some(0))
        else Encrypt(d, writes[1..])
      else if w.status == FAIL then (c, Some(-1))
      else if w.n == 0 then (c, Some(0))
      else Encrypt(c, writes[1..])
  }

  /** do_ssl_handshake, given the status of SSL_do_handshake. */
  function Handshake(c: Client, status: SslStatus, r: BioReads): (Client, SslStatus) {
    if status != WANT_IO then (c, status)
    else (QueueAll(c, r.chunks), if r.retry then status else FAIL)
  }

  /** do_sock_write, given what write() returns; the socket sends no more than it is offered. */
  function SockWrite(c: Client, n: int): (Client, int) {
    var k := if n > |c.write| then |c.write| else n;
    if k > 0 then (c.(write := c.write[k..], sent := c.sent + c.write[..k]), 0) else (c, -1)
  }

  /** One turn of the on_read_cb loop: what BIO_write took, whether the handshake was and is finished,
      its answers, and the status and BIO reads after the SSL_read loop. */
  datatype ReadTurn = ReadTurn(n: int, wasDone: bool, hsStatus: SslStatus, hsReads: BioReads, isDone: bool,
                               status: SslStatus, reads_: BioReads)

  /** on_read_cb with `len` bytes to feed. */
  function OnRead(c: Client, len: nat, turns: seq<ReadTurn>): (Client, Option<int>)
    decreases |turns|
  {
    if len == 0 then (c, Some(0))
    else if turns == [] then (c, None)
    else
      var t := turns[0];
      if t.n <= 0 then (c, Some(-1))
      else
        var (d, hs) := if t.wasDone then (c, STATUS_OK) else Handshake(c, t.hsStatus, t.hsReads);
        if hs == FAIL then (d, Some(-1))
        else if !t.wasDone && !t.isDone then (d, Some(0))
        else
          var e := if t.status == WANT_IO then QueueAll(d, t.reads_.chunks) else d;
          if t.status == FAIL || (t.status == WANT_IO && !t.reads_.retry) then (e, Some(-1))
          else OnRead(e, if t.n < len then len - t.n else 0, turns[1..])
  }

  // ---------------------------------------------------------------- conservation

  /** No byte is lost, duplicated or reordered on either side. */
  ghost predicate Conserved(c: Client) {
    c.accepted + c.encrypt == c.queued && c.sent + c.write == c.drained
  }

  /** `d` is reached from `c`: what was accepted and sent stays so, in order. */
  ghost predicate Extends(c: Client, d: Client) {
    c.queued <= d.queued && c.accepted <= d.accepted && c.drained <= d.drained && c.sent <= d.sent
  }

  lemma ExtendsTransitive(c: Client, d: Client, e: Client)
    requires Extends(c, d) && Extends(d, e)
    ensures Extends(c, e)
  {
  }

  lemma {:induction false} QueueAllKeeps(c: Client, chunks: seq<Bytes>)
    requires Conserved(c)
    ensures var d := QueueAll(c, chunks);
            Conserved(d) && Extends(c, d) && d.queued == c.queued && d.accepted == c.accepted && d.sent == c.sent
    decreases |chunks|
  {
    if chunks != [] {
      var d := QueueEncrypted(c, chunks[0]);
      assert d.sent + d.write == c.sent + c.write + chunks[0];
      QueueAllKeeps(d, chunks[1..]);
    }
  }

  lemma AcceptKeeps(c: Client, n: int)
    requires Conserved(c)
    ensures Conserved(Accept(c, n)) && Extends(c, Accept(c, n))
  {
    assert c.encrypt[..Taken(c, n)] + c.encrypt[Taken(c, n)..] == c.encrypt;
  }

  /** Encrypting keeps both balances whatever the oracles answer, queues and sends nothing, and ends with
      success only when every queued byte was accepted or an oracle answered 0. */
  lemma {:induction false} EncryptKeeps(c: Client, writes: seq<SslWrite>)
    requires Conserved(c)
    ensures var (d, rc) := Encrypt(c, writes);
            && Conserved(d) && Extends(c, d) && d.queued == c.queued && d.sent == c.sent
            && (rc == Some(0) && (forall w :: w in writes ==> w.n != 0 && w.reads_.stop != 0) ==> d.accepted == d.queued)
    decreases |writes|
  {
    if c.encrypt == [] {
      assert c.accepted + [] == c.accepted;
    } else if writes != [] {
      var w := writes[0];
      if w.n > 0 {
        AcceptKeeps(c, w.n);
        var d := QueueAll(Accept(c, w.n), w.reads_.chunks);
        QueueAllKeeps(Accept(c, w.n), w.reads_.chunks);
        EncryptKeeps(d, writes[1..]);
        ExtendsTransitive(c, d, Encrypt(d, writes[1..]).0);
      } else {
        EncryptKeeps(c, writes[1..]);
      }
    }
  }

  lemma SockWriteKeeps(c: Client, n: int)
    requires Conserved(c)
    ensures Conserved(SockWrite(c, n).0) && Extends(c, SockWrite(c, n).0)
    ensures SockWrite(c, n).1 == 0 <==> |SockWrite(c, n).0.write| < |c.write|
  {
    var k := if n > |c.write| then |c.write| else n;
    if k > 0 {
      assert c.write[..k] + c.write[k..] == c.write;
    }
  }

  lemma HandshakeKeeps(c: Client, status: SslStatus, r: BioReads)
    requires Conserved(c)
    ensures Conserved(Handshake(c, status, r).0) && Extends(c, Handshake(c, status, r).0)
  {
    QueueAllKeeps(c, r.chunks);
  }

  lemma {:induction false} OnReadKeeps(c: Client, len: nat, turns: seq<ReadTurn>)
    requires Conserved(c)
    ensures Conserved(OnRead(c, len, turns).0) && Extends(c, OnRead(c, len, turns).0)
    decreases |turns|
  {
    if len > 0 && turns != [] && turns[0].n > 0 {
      var t := turns[0];
      var (d, hs) := if t.wasDone then (c, STATUS_OK) else Handshake(c, t.hsStatus, t.hsReads);
      HandshakeKeeps(c, t.hsStatus, t.hsReads);
      QueueAllKeeps(d, t.reads_.chunks);
      var e := if t.status == WANT_IO then QueueAll(d, t.reads_.chunks) else d;
      ExtendsTransitive(c, d, e);
      OnReadKeeps(e, if t.n < len then len - t.n else 0, turns[1..]);
      ExtendsTransitive(c, e, OnRead(e, if t.n < len then len - t.n else 0, turns[1..]).0);
    }
  }

  // ---------------------------------------------------------------- runs

  datatype Op =
    | OpSend(buf: Bytes)
    | OpEncrypt(finished: bool, writes: seq<SslWrite>)
    | OpSockWrite(n: int)
    | OpHandshake(status: SslStatus, r: BioReads)
    | OpOnRead(len: nat, turns: seq<ReadTurn>)

  function Do(c: Client, op: Op): Client {
    match op
    case OpSend(buf) => SendUnencrypted(c, buf)
    case OpEncrypt(finished, writes) => if finished then Encrypt(c, writes).0 else c
    case OpSockWrite(n) => SockWrite(c, n).0
    case OpHandshake(status, r) => Handshake(c, status, r).0
    case OpOnRead(len, turns) => OnRead(c, len, turns).0
  }

  function Run(c: Client, ops: seq<Op>): Client
    decreases |ops|
  {
    if ops == [] then c else Run(Do(c, ops[0]), ops[1..])
  }

  /** The bytes the application sent in a run, in order. */
  function Sent(ops: seq<Op>): Bytes {
    if ops == [] then [] else (if ops[0].OpSend? then ops[0].buf else []) + Sent(ops[1..])
  }

  lemma DoKeeps(c: Client, op: Op)
    requires Conserved(c)
    ensures Conserved(Do(c, op)) && Extends(c, Do(c, op))
  {
    match op
    case OpSend(buf) => assert c.accepted + (c.encrypt + buf) == c.accepted + c.encrypt + buf;
    case OpEncrypt(finished, writes) => EncryptKeeps(c, writes);
    case OpSockWrite(n) => SockWriteKeeps(c, n);
    case OpHandshake(status, r) => HandshakeKeeps(c, status, r);
    case OpOnRead(len, turns) => OnReadKeeps(c, len, turns);
  }

  /** Only the application queues. */
  lemma DoQueues(c: Client, op: Op)
    requires Conserved(c)
    ensures Do(c, op).queued == c.queued + (if op.OpSend? then op.buf else [])
  {
    match op
    case OpSend(buf) =>
    case OpEncrypt(finished, writes) => EncryptKeeps(c, writes);
    case OpSockWrite(n) =>
    case OpHandshake(status, r) => QueueAllKeeps(c, r.chunks);
    case OpOnRead(len, turns) => OnReadQueues(c, len, turns);
  }

  lemma {:induction false} OnReadQueues(c: Client, len: nat, turns: seq<ReadTurn>)
    requires Conserved(c)
    ensures OnRead(c, len, turns).0.queued == c.queued && OnRead(c, len, turns).0.encrypt == c.encrypt
    decreases |turns|
  {
    if len > 0 && turns != [] && turns[0].n > 0 {
      var t := turns[0];
      var (d, hs) := if t.wasDone then (c, STATUS_OK) else Handshake(c, t.hsStatus, t.hsReads);
      QueueAllKeeps(c, t.hsReads.chunks);
      QueueAllPlain(c, t.hsReads.chunks);
      QueueAllKeeps(d, t.reads_.chunks);
      QueueAllPlain(d, t.reads_.chunks);
      var e := if t.status == WANT_IO then QueueAll(d, t.reads_.chunks) else d;
      OnReadQueues(e, if t.n < len then len - t.n else 0, turns[1..]);
    }
  }

  lemma {:induction false} QueueAllPlain(c: Client, chunks: seq<Bytes>)
    ensures QueueAll(c, chunks).encrypt == c.encrypt
    decreases |chunks|
  {
    if chunks != [] {
      QueueAllPlain(QueueEncrypted(c, chunks[0]), chunks[1..]);
    }
  }

  lemma {:induction false} RunKeeps(c: Client, ops: seq<Op>)
    requires Conserved(c)
    ensures Conserved(Run(c, ops)) && Extends(c, Run(c, ops))
    decreases |ops|
  {
    if ops != [] {
      DoKeeps(c, ops[0]);
      RunKeeps(Do(c, ops[0]), ops[1..]);
      ExtendsTransitive(c, Do(c, ops[0]), Run(c, ops));
    }
  }

  lemma {:induction false} RunQueues(c: Client, ops: seq<Op>)
    requires Conserved(c)
    ensures Run(c, ops).queued == c.queued + Sent(ops)
    decreases |ops|
  {
    if ops == [] {
      assert c.queued + [] == c.queued;
    } else {
      var d, sent := Do(c, ops[0]), if ops[0].OpSend? then ops[0].buf else [];
      DoKeeps(c, ops[0]);
      DoQueues(c, ops[0]);
      RunQueues(d, ops[1..]);
      Assoc(c.queued, sent, Sent(ops[1..]));
    }
  }

  /** In every reachable state the bytes SSL_write accepted followed by those still waiting are exactly the
      bytes the application sent, and the bytes on the wire followed by those waiting for the socket are
      exactly the bytes drained from the output BIO. */
  lemma RunConserves(ops: seq<Op>)
    ensures var c := Run(NEW_CLIENT, ops);
            c.accepted + c.encrypt == Sent(ops) && c.sent + c.write == c.drained
  {
    RunKeeps(NEW_CLIENT, ops);
    RunQueues(NEW_CLIENT, ops);
    assert [] + Sent(ops) == Sent(ops);
  }

  // ---------------------------------------------------------------- what the output BIO delivered

  function Flat(chunks: seq<Bytes>): Bytes {
    if chunks == [] then [] else chunks[0] + Flat(chunks[1..])
  }

  /** The bytes in the BIO answers of an encryption: reads follow only an SSL_write that took bytes. */
  function WriteBytes(writes: seq<SslWrite>): Bytes {
    if writes == [] then [] else (if writes[0].n > 0 then Flat(writes[0].reads_.chunks) else []) + WriteBytes(writes[1..])
  }

  /** The bytes in the BIO answers of a handshake step. */
  function HandshakeBytes(status: SslStatus, r: BioReads): Bytes {
    if status == WANT_IO then Flat(r.chunks) else []
  }

  /** The bytes in the BIO answers of one turn of on_read_cb: those of the handshake, when it was still to
      do, and those after the SSL_read loop, when the turn gets there. */
  function TurnBytes(t: ReadTurn): Bytes {
    if t.n <= 0 then []
    else if t.wasDone then HandshakeBytes(t.status, t.reads_)
    else if t.hsStatus == FAIL || (t.hsStatus == WANT_IO && !t.hsReads.retry) || !t.isDone then HandshakeBytes(t.hsStatus, t.hsReads)
    else HandshakeBytes(t.hsStatus, t.hsReads) + HandshakeBytes(t.status, t.reads_)
  }

  function TurnsBytes(turns: seq<ReadTurn>): Bytes {
    if turns == [] then [] else TurnBytes(turns[0]) + TurnsBytes(turns[1..])
  }

  /** The bytes in the BIO answers of one operation. */
  function Answered(op: Op): Bytes {
    match op
    case OpSend(_) => []
    case OpEncrypt(finished, writes) => if finished then WriteBytes(writes) else []
    case OpSockWrite(_) => []
    case OpHandshake(status, r) => HandshakeBytes(status, r)
    case OpOnRead(_, turns) => TurnsBytes(turns)
  }

  /** The bytes in all BIO answers of a run, in order. */
  function Delivered(ops: seq<Op>): Bytes {
    if ops == [] then [] else Answered(ops[0]) + Delivered(ops[1..])
  }

  /** The source asks for every answer of `op`: with fewer of them its loop would still be waiting. */
  ghost predicate AllAsked(c: Client, op: Op) {
    match op
    case OpEncrypt(finished, writes) => finished ==> forall k :: 0 <= k < |writes| ==> Encrypt(c, writes[..k]).1 == None
    case OpOnRead(len, turns) => forall k :: 0 <= k < |turns| ==> OnRead(c, len, turns[..k]).1 == None
    case _ => true
  }

  ghost predicate RunAsked(c: Client, ops: seq<Op>)
    decreases |ops|
  {
    ops != [] ==> AllAsked(c, ops[0]) && RunAsked(Do(c, ops[0]), ops[1..])
  }

  /** `short` is `op` with answers left off at the end. */
  predicate Trims(short: Op, op: Op) {
    match op
    case OpEncrypt(finished, writes) => short.OpEncrypt? && short.finished == finished && short.writes <= writes
    case OpOnRead(len, turns) => short.OpOnRead? && short.len == len && short.turns <= turns
    case _ => short == op
  }

  lemma {:induction false} QueueAllDrains(c: Client, chunks: seq<Bytes>)
    ensures QueueAll(c, chunks).drained == c.drained + Flat(chunks)
    decreases |chunks|
  {
    if chunks == [] {
      assert c.drained + [] == c.drained;
    } else {
      QueueAllDrains(QueueEncrypted(c, chunks[0]), chunks[1..]);
      Assoc(c.drained, chunks[0], Flat(chunks[1..]));
    }
  }

  lemma HandshakeDrains(c: Client, status: SslStatus, r: BioReads)
    ensures Handshake(c, status, r).0.drained == c.drained + HandshakeBytes(status, r)
  {
    QueueAllDrains(c, r.chunks);
    assert c.drained + [] == c.drained;
  }

  /** The encryption loop asks for the first `k` answers, and drains exactly the bytes in them. */
  lemma {:induction false} EncryptDrains(c: Client, writes: seq<SslWrite>) returns (k: nat)
    ensures k <= |writes| && Encrypt(c, writes[..k]) == Encrypt(c, writes)
    ensures forall j :: 0 <= j < k ==> Encrypt(c, writes[..j]).1 == None
    ensures Encrypt(c, writes).0.drained == c.drained + WriteBytes(writes[..k])
    decreases |writes|
  {
    if c.encrypt == [] || writes == [] {
      k := 0;
      assert c.drained + [] == c.drained;
    } else {
      var w, rest := writes[0], writes[1..];
      var d := if w.n > 0 then QueueAll(Accept(c, w.n), w.reads_.chunks) else c;
      QueueAllDrains(Accept(c, w.n), w.reads_.chunks);
      var own := if w.n > 0 then Flat(w.reads_.chunks) else [];
      assert d.drained == c.drained + own;
      if Stops(w) {
        k := 1;
        assert writes[..1] == [w] && [w][1..] == [] && own + [] == own;
      } else {
        var m := EncryptDrains(d, rest);
        k := m + 1;
        assert writes[..k][0] == w && writes[..k][1..] == rest[..m];
        Assoc(c.drained, own, WriteBytes(rest[..m]));
        forall j | 0 <= j < k
          ensures Encrypt(c, writes[..j]).1 == None
        {
          if j > 0 {
            assert writes[..j][0] == w && writes[..j][1..] == rest[..j - 1];
          }
        }
      }
    }
  }

  /** The loop ends with this answer of SSL_write. */
  predicate Stops(w: SslWrite) {
    w.status == FAIL || w.n == 0 || (w.n > 0 && (!w.reads_.retry || w.reads_.stop == 0))
  }

  /** What one turn of on_read_cb makes of the client, and whether the loop goes on. */
  function AfterTurn(c: Client, t: ReadTurn): (Client, bool) {
    if t.n <= 0 then (c, false)
    else
      var (d, hs) := if t.wasDone then (c, STATUS_OK) else Handshake(c, t.hsStatus, t.hsReads);
      if hs == FAIL || (!t.wasDone && !t.isDone) then (d, false)
      else
        var e := if t.status == WANT_IO then QueueAll(d, t.reads_.chunks) else d;
        (e, t.status != FAIL && (t.status == WANT_IO ==> t.reads_.retry))
  }

  lemma TurnDrains(c: Client, t: ReadTurn)
    ensures AfterTurn(c, t).0.drained == c.drained + TurnBytes(t)
  {
    var (d, hs) := if t.wasDone then (c, STATUS_OK) else Handshake(c, t.hsStatus, t.hsReads);
    HandshakeDrains(c, t.hsStatus, t.hsReads);
    QueueAllDrains(d, t.reads_.chunks);
    assert c.drained + [] == c.drained && d.drained + [] == d.drained;
    Assoc(c.drained, HandshakeBytes(t.hsStatus, t.hsReads), HandshakeBytes(t.status, t.reads_));
  }

  lemma {:induction false} OnReadDrains(c: Client, len: nat, turns: seq<ReadTurn>) returns (k: nat)
    ensures k <= |turns| && OnRead(c, len, turns[..k]) == OnRead(c, len, turns)
    ensures forall j :: 0 <= j < k ==> OnRead(c, len, turns[..j]).1 == None
    ensures OnRead(c, len, turns).0.drained == c.drained + TurnsBytes(turns[..k])
    decreases |turns|
  {
    if len == 0 || turns == [] {
      k := 0;
      assert c.drained + [] == c.drained;
    } else {
      var t, rest := turns[0], turns[1..];
      var (d, on) := AfterTurn(c, t);
      TurnDrains(c, t);
      if !on {
        k := 1;
        assert turns[..1] == [t] && [t][1..] == [] && TurnBytes(t) + [] == TurnBytes(t);
      } else {
        var left := if t.n < len then len - t.n else 0;
        var m := OnReadDrains(d, left, rest);
        k := m + 1;
        assert turns[..k][0] == t && turns[..k][1..] == rest[..m];
        Assoc(c.drained, TurnBytes(t), TurnsBytes(rest[..m]));
        forall j | 0 <= j < k
          ensures OnRead(c, len, turns[..j]).1 == None
        {
          if j > 0 {
            assert turns[..j][0] == t && turns[..j][1..] == rest[..j - 1];
          }
        }
      }
    }
  }

  lemma DoDrains(c: Client, op: Op) returns (short: Op)
    ensures Trims(short, op) && Do(c, short) == Do(c, op) && AllAsked(c, short)
    ensures Do(c, op).drained == c.drained + Answered(short)
  {
    short := op;
    assert c.drained + [] == c.drained;
    match op
    case OpSend(_) =>
    case OpSockWrite(_) =>
    case OpEncrypt(finished, writes) =>
      if finished {
        var k := EncryptDrains(c, writes);
        short := OpEncrypt(true, writes[..k]);
        assert forall j :: 0 <= j < k ==> writes[..k][..j] == writes[..j];
      }
    case OpHandshake(status, r) => HandshakeDrains(c, status, r);
    case OpOnRead(len, turns) =>
      var k := OnReadDrains(c, len, turns);
      short := OpOnRead(len, turns[..k]);
      assert forall j :: 0 <= j < k ==> turns[..k][..j] == turns[..j];
  }

  /** In any run the bytes drained are exactly those in the BIO answers that the source asked for; supplied
      answers behind them change nothing. */
  lemma {:induction false} RunDrains(c: Client, ops: seq<Op>) returns (asked: seq<Op>)
    ensures |asked| == |ops| && forall i :: 0 <= i < |ops| ==> Trims(asked[i], ops[i])
    ensures RunAsked(c, asked) && Run(c, asked) == Run(c, ops)
    ensures Run(c, ops).drained == c.drained + Delivered(asked)
    decreases |ops|
  {
    if ops == [] {
      asked := [];
      assert c.drained + [] == c.drained;
    } else {
      var op, rest := ops[0], ops[1..];
      var short := DoDrains(c, op);
      var d := Do(c, op);
      var later := RunDrains(d, rest);
      asked := [short] + later;
      assert asked[1..] == later;
      Assoc(c.drained, Answered(short), Delivered(later));
    }
  }

  /** Both ends of both queues in every reachable state: what SSL_write accepted and what waits for it are the
      bytes the application sent; what is on the wire and what waits for the socket are the bytes the output
      BIO delivered. */
  lemma EndToEnd(ops: seq<Op>) returns (asked: seq<Op>)
    ensures |asked| == |ops| && (forall i :: 0 <= i < |ops| ==> Trims(asked[i], ops[i])) && RunAsked(NEW_CLIENT, asked)
    ensures var c := Run(NEW_CLIENT, ops);
            c.accepted + c.encrypt == Sent(ops) && c.sent + c.write == Delivered(asked)
  {
    asked := RunDrains(NEW_CLIENT, ops);
    RunConserves(ops);
    assert [] + Delivered(asked) == Delivered(asked);
  }

  // ---------------------------------------------------------------- the buffers of the source

  /** realloc: keeps the common prefix; new bytes are arbitrary, here zero. */
  function Realloc(buf: Bytes, n: nat): (r: Bytes)
    ensures |r| == n && forall i :: 0 <= i < n && i < |buf| ==> r[i] == buf[i]
  {
    if n <= |buf| then buf[..n] else buf + seq(n - |buf|, _ => 0)
  }

  /** memmove of `n` bytes from offset `from` to the start of the buffer. */
  function Memmove(buf: Bytes, from: nat, n: nat): (r: Bytes)
    requires from + n <= |buf|
    ensures |r| == |buf| && r[..n] == buf[from..from + n]
  {
    buf[from..from + n] + buf[n..]
  }

  /** memcpy of `src` to offset `at`. */
  function Memcpy(buf: Bytes, at: nat, src: Bytes): (r: Bytes)
    requires at + |src| <= |buf|
    ensures |r| == |buf|
  {
    buf[..at] + src + buf[at + |src|..]
  }

  class TlsClient {
    var encryptBuf: Bytes
    var encryptLen: nat
    var writeBuf: Bytes
    var writeLen: nat
    ghost var queued: Bytes
    ghost var accepted: Bytes
    ghost var drained: Bytes
    ghost var sent: Bytes

    ghost predicate Valid()
      reads this
    {
      |encryptBuf| == encryptLen && |writeBuf| == writeLen && Conserved(Value())
    }

    ghost function Value(): Client
      reads this
    {
      Client(encryptBuf, writeBuf, queued, accepted, drained, sent)
    }

    /** ssl_client_init. */
    constructor ()
      ensures Valid() && Value() == NEW_CLIENT
    {
      encryptBuf, encryptLen, writeBuf, writeLen := [], 0, [], 0;
      queued, accepted, drained, sent := [], [], [], [];
    }

    method SendUnencryptedBytes(buf: Bytes)
      requires Valid()
      modifies this
      ensures Valid() && Value() == SendUnencrypted(old(Value()), buf)
    {
      DoKeeps(Value(), OpSend(buf));
      encryptBuf := Realloc(encryptBuf, encryptLen + |buf|);
      encryptBuf := Memcpy(encryptBuf, encryptLen, buf);
      encryptLen := encryptLen + |buf|;
      queued := queued + buf;
      assert encryptBuf == old(encryptBuf) + buf;
    }

    method QueueEncryptedBytes(buf: Bytes)
      requires Valid()
      modifies this
      ensures Valid() && Value() == QueueEncrypted(old(Value()), buf)
    {
      QueueAllKeeps(Value(), [buf]);
      assert QueueAll(Value(), [buf]) == QueueAll(QueueEncrypted(Value(), buf), []);
      writeBuf := Realloc(writeBuf, writeLen + |buf|);
      writeBuf := Memcpy(writeBuf, writeLen, buf);
      writeLen := writeLen + |buf|;
      drained := drained + buf;
      assert writeBuf == old(writeBuf) + buf;
    }

    /** The do-while loop over BIO_read. */
    method DrainBio(r: BioReads) returns (ok: bool)
      requires Valid()
      modifies this
      ensures Valid() && Value() == QueueAll(old(Value()), r.chunks) && ok == r.retry
    {
      for i := 0 to |r.chunks|
        invariant Valid() && QueueAll(Value(), r.chunks[i..]) == QueueAll(old(Value()), r.chunks)
      {
        assert r.chunks[i..][1..] == r.chunks[i + 1..];
        QueueEncryptedBytes(r.chunks[i]);
      }
      ok := r.retry;
    }

    /** Shift the waiting bytes down after SSL_write took some. */
    method Consume(n: nat)
      requires Valid() && 0 < n <= encryptLen
      modifies this
      ensures Valid() && Value() == Accept(old(Value()), n)
    {
      AcceptKeeps(Value(), n);
      accepted := accepted + encryptBuf[..n];
      if n < encryptLen {
        encryptBuf := Memmove(encryptBuf, n, encryptLen - n);
      }
      encryptLen := encryptLen - n;
      encryptBuf := Realloc(encryptBuf, encryptLen);
      assert encryptBuf == old(encryptBuf)[n..];
    }

    /** do_encrypt; `finished` is SSL_is_init_finished. */
    method DoEncrypt(finished: bool, writes: seq<SslWrite>) returns (rc: Option<int>)
      requires Valid()
      modifies this
      ensures Valid()
      ensures !finished ==> Value() == old(Value()) && rc == Some(0)
      ensures finished ==> (Value(), rc) == Encrypt(old(Value()), writes)
    {
      if !finished {
        return Some(0);
      }
      var k := 0;
      while encryptLen > 0
        invariant Valid() && k <= |writes| && Encrypt(Value(), writes[k..]) == Encrypt(old(Value()), writes)
        decreases |writes| - k
      {
        if k == |writes| {
          return None;
        }
        var w := writes[k];
        assert writes[k..][1..] == writes[k + 1..];
        k := k + 1;
        var n := if w.n > encryptLen then encryptLen else w.n;
        if n > 0 {
          Consume(n);
          var ok := DrainBio(w.reads_);
          if !ok {
            return Some(-1);
          }
          n := w.reads_.stop;
        }
        if w.status == FAIL {
          return Some(-1);
        }
        if n == 0 {
          return Some(0);
        }
      }
      return Some(0);
    }

    /** do_ssl_handshake; `status` is the status of SSL_do_handshake. */
    method DoSslHandshake(status: SslStatus, r: BioReads) returns (s: SslStatus)
      requires Valid()
      modifies this
      ensures Valid() && (Value(), s) == Handshake(old(Value()), status, r)
    {
      s := status;
      if status == WANT_IO {
        var ok := DrainBio(r);
        if !ok {
          return FAIL;
        }
      }
    }

    /** on_read_cb, without the plain text it hands on. */
    method OnReadCb(size: nat, turns: seq<ReadTurn>) returns (rc: Option<int>)
      requires Valid()
      modifies this
      ensures Valid() && (Value(), rc) == OnRead(old(Value()), size, turns)
    {
      var len: nat := size;
      var k := 0;
      while len > 0
        invariant Valid() && k <= |turns| && OnRead(Value(), len, turns[k..]) == OnRead(old(Value()), size, turns)
        decreases |turns| - k
      {
        if k == |turns| {
          return None;
        }
        var t := turns[k];
        assert turns[k..][1..] == turns[k + 1..];
        k := k + 1;
        if t.n <= 0 {
          return Some(-1);
        }
        len := if t.n < len then len - t.n else 0;
        if !t.wasDone {
          var s := DoSslHandshake(t.hsStatus, t.hsReads);
          if s == FAIL {
            return Some(-1);
          }
          if !t.isDone {
            return Some(0);
          }
        }
        if t.status == WANT_IO {
          var ok := DrainBio(t.reads_);
          if !ok {
            return Some(-1);
          }
        }
        if t.status == FAIL {
          return Some(-1);
        }
      }
      return Some(0);
    }

    /** do_sock_write; `answer` is what write() returns. */
    method DoSockWrite(answer: int) returns (rc: int)
      requires Valid()
      modifies this
      ensures Valid() && (Value(), rc) == SockWrite(old(Value()), answer)
      ensures rc == if answer > 0 && old(writeLen) > 0 then 0 else -1
      ensures var k := if answer <= 0 then 0 else if answer < old(writeLen) then answer else old(writeLen);
              writeBuf == old(writeBuf)[k..] && sent == old(sent) + old(writeBuf)[..k] && encryptBuf == old(encryptBuf)
    {
      SockWriteKeeps(Value(), answer);
      var n := if answer > writeLen then writeLen else answer;
      if n > 0 {
        sent := sent + writeBuf[..n];
        if n < writeLen {
          writeBuf := Memmove(writeBuf, n, writeLen - n);
        }
        writeLen := writeLen - n;
        writeBuf := Realloc(writeBuf, writeLen);
        assert writeBuf == old(writeBuf)[n..];
        return 0;
      } else {
        return -1;
      }
    }
  }
}
