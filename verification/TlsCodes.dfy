/** The return codes of the TLS client in proc_inc/openssl_common.h, by the answers of OpenSSL alone: which
    answer ends a loop, and with what. */
module TlsCodes {
  import opened CStrings
  import opened TlsQueues

  // ---------------------------------------------------------------- on_read_cb

  /** BIO_write fails, or the handshake does, or what comes after it. */
  predicate Failing(t: ReadTurn) {
    t.n <= 0
    || (!t.wasDone && (t.hsStatus == FAIL || (t.hsStatus == WANT_IO && !t.hsReads.retry)))
    || ((t.wasDone || t.isDone) && (t.status == FAIL || (t.status == WANT_IO && !t.reads_.retry)))
  }

  /** The handshake neither fails nor finishes. */
  predicate Pausing(t: ReadTurn) {
    !Failing(t) && !t.wasDone && !t.isDone
  }

  predicate Passing(t: ReadTurn) {
    !Failing(t) && !Pausing(t)
  }

  /** The bytes that the first turns took: fed[k] those of the first `k`. */
  ghost predicate Feeds(fed: seq<int>, turns: seq<ReadTurn>) {
    |fed| == |turns| + 1 && forall i :: 0 <= i < |turns| ==> fed[i + 1] == fed[i] + turns[i].n
  }

  lemma TurnEnds(c: Client, len: nat, turns: seq<ReadTurn>)
    requires len > 0 && turns != []
    ensures var t, r := turns[0], OnRead(c, len, turns);
            && (Failing(t) ==> r.1 == Some(-1))
            && (Pausing(t) ==> r.1 == Some(0))
            && (Passing(t) ==> r == OnRead(AfterTurn(c, t).0, if t.n < len then len - t.n else 0, turns[1..]))
  {
  }

  /** The end of the loop: after some passing turns with no bytes left, at a turn that fails or pauses, or for want
      of answers. */
  lemma {:induction false} LoopEnds(c: Client, len: nat, turns: seq<ReadTurn>, fed: seq<int>) returns (k: nat)
    requires Feeds(fed, turns) && fed[0] == 0
    ensures k <= |turns| && forall j :: 0 <= j < k ==> Passing(turns[j]) && fed[j] < len
    ensures OnRead(c, len, turns).1 ==
              if fed[k] >= len then Some(0) else if k == |turns| then None else if Failing(turns[k]) then Some(-1) else Some(0)
    ensures fed[k] < len && k < |turns| ==> !Passing(turns[k])
    decreases |turns|
  {
    k := 0;
    if len > 0 && turns != [] {
      TurnEnds(c, len, turns);
      var t := turns[0];
      if Passing(t) {
        var rest, left := turns[1..], if t.n < len then len - t.n else 0;
        var later := seq(|rest| + 1, i requires 0 <= i <= |rest| => fed[i + 1] - t.n);
        var m := LoopEnds(AfterTurn(c, t).0, left, rest, later);
        k := m + 1;
        FedGrows(fed, turns);
        assert forall j :: 0 <= j <= |rest| ==> later[j] == fed[j + 1] - t.n;
        forall j | 0 <= j < k
          ensures Passing(turns[j]) && fed[j] < len
        {
          if j > 0 {
            assert turns[j] == rest[j - 1] && later[j - 1] == fed[j] - t.n;
          }
        }
      }
    }
  }

  lemma FedGrows(fed: seq<int>, turns: seq<ReadTurn>)
    requires Feeds(fed, turns) && fed[0] == 0
    ensures turns != [] ==> fed[1] == turns[0].n
  {
  }

  lemma {:induction false} PassingGrow(fed: seq<int>, turns: seq<ReadTurn>, i: nat, k: nat)
    requires Feeds(fed, turns) && i <= k <= |turns| && forall j :: 0 <= j < k ==> Passing(turns[j])
    ensures fed[i] <= fed[k]
    decreases k - i
  {
    if i < k {
      PassingGrow(fed, turns, i, k - 1);
      assert fed[k] == fed[k - 1] + turns[k - 1].n;
    }
  }

  ghost predicate AllPass(turns: seq<ReadTurn>, k: nat)
    requires k <= |turns|
  {
    forall j :: 0 <= j < k ==> Passing(turns[j])
  }

  lemma OnReadEnds(c: Client, len: nat, turns: seq<ReadTurn>, fed: seq<int>)
    requires Feeds(fed, turns) && fed[0] == 0
    ensures var rc := OnRead(c, len, turns).1;
            && (rc == Some(-1) <==> exists k :: 0 <= k < |turns| && fed[k] < len && Failing(turns[k]) && AllPass(turns, k))
            && (rc == Some(0) <==>
                  exists k :: 0 <= k <= |turns| && (fed[k] >= len || (k < |turns| && Pausing(turns[k]))) && AllPass(turns, k))
            && (rc == None <==> fed[|turns|] < len && AllPass(turns, |turns|))
  {
    var k := LoopEnds(c, len, turns, fed);
    assert AllPass(turns, k);
    forall m | 0 <= m <= |turns| && AllPass(turns, m)
      ensures m <= k || fed[m] >= len
    {
      if m > k && fed[k] >= len {
        PassingGrow(fed, turns, k, m);
      }
    }
    if fed[k] >= len {
      assert k <= |turns| && fed[k] >= len;
    }
  }

  /** The code -1 of on_read_cb. A turn fails when BIO_write takes nothing, when the handshake fails or wants the
      output BIO and must not retry, or when what follows a finished handshake does so; it pauses when the
      handshake neither fails nor finishes. The result is -1 exactly when a turn fails before the bytes are used
      up and before any other has failed or paused. */
  lemma OnReadFails(c: Client, len: nat, turns: seq<ReadTurn>, fed: seq<int>)
    requires |fed| == |turns| + 1 && fed[0] == 0 && forall i :: 0 <= i < |turns| ==> fed[i + 1] == fed[i] + turns[i].n
    ensures var rc := OnRead(c, len, turns).1;
            var fails := (t: ReadTurn) =>
              t.n <= 0
              || (!t.wasDone && (t.hsStatus == FAIL || (t.hsStatus == WANT_IO && !t.hsReads.retry)))
              || ((t.wasDone || t.isDone) && (t.status == FAIL || (t.status == WANT_IO && !t.reads_.retry)));
            var pauses := (t: ReadTurn) =>
              t.n > 0 && !t.wasDone && !t.isDone && (t.hsStatus == STATUS_OK || (t.hsStatus == WANT_IO && t.hsReads.retry));
            rc == Some(-1) <==>
              exists k :: 0 <= k < |turns| && fed[k] < len && fails(turns[k])
                       && forall j :: 0 <= j < k ==> !fails(turns[j]) && !pauses(turns[j])
  {
    OnReadEnds(c, len, turns, fed);
  }

  /** The code 0: turns that neither fail nor pause use the bytes up, or one pauses first. */
  lemma OnReadSucceeds(c: Client, len: nat, turns: seq<ReadTurn>, fed: seq<int>)
    requires |fed| == |turns| + 1 && fed[0] == 0 && forall i :: 0 <= i < |turns| ==> fed[i + 1] == fed[i] + turns[i].n
    ensures var rc := OnRead(c, len, turns).1;
            var fails := (t: ReadTurn) =>
              t.n <= 0
              || (!t.wasDone && (t.hsStatus == FAIL || (t.hsStatus == WANT_IO && !t.hsReads.retry)))
              || ((t.wasDone || t.isDone) && (t.status == FAIL || (t.status == WANT_IO && !t.reads_.retry)));
            var pauses := (t: ReadTurn) =>
              t.n > 0 && !t.wasDone && !t.isDone && (t.hsStatus == STATUS_OK || (t.hsStatus == WANT_IO && t.hsReads.retry));
            rc == Some(0) <==>
              exists k :: 0 <= k <= |turns| && (fed[k] >= len || (k < |turns| && pauses(turns[k])))
                       && forall j :: 0 <= j < k ==> !fails(turns[j]) && !pauses(turns[j])
  {
    OnReadEnds(c, len, turns, fed);
  }

  /** No code: the answers run out before either. */
  lemma OnReadWaits(c: Client, len: nat, turns: seq<ReadTurn>, fed: seq<int>)
    requires |fed| == |turns| + 1 && fed[0] == 0 && forall i :: 0 <= i < |turns| ==> fed[i + 1] == fed[i] + turns[i].n
    ensures var rc := OnRead(c, len, turns).1;
            var fails := (t: ReadTurn) =>
              t.n <= 0
              || (!t.wasDone && (t.hsStatus == FAIL || (t.hsStatus == WANT_IO && !t.hsReads.retry)))
              || ((t.wasDone || t.isDone) && (t.status == FAIL || (t.status == WANT_IO && !t.reads_.retry)));
            var pauses := (t: ReadTurn) =>
              t.n > 0 && !t.wasDone && !t.isDone && (t.hsStatus == STATUS_OK || (t.hsStatus == WANT_IO && t.hsReads.retry));
            rc == None <==> fed[|turns|] < len && forall j :: 0 <= j < |turns| ==> !fails(turns[j]) && !pauses(turns[j])
  {
    OnReadEnds(c, len, turns, fed);
  }

  // ---------------------------------------------------------------- what is queued for the socket

  /** The chunks one after the other. */
  lemma {:induction false} FlatSnoc(chunks: seq<Bytes>, b: Bytes)
    ensures Flat([]) == [] && Flat(chunks + [b]) == Flat(chunks) + b
    decreases |chunks|
  {
    if chunks == [] {
      assert [] + [b] == [b] && [b][1..] == [] && b + [] == b;
    } else {
      assert (chunks + [b])[0] == chunks[0] && (chunks + [b])[1..] == chunks[1..] + [b];
      FlatSnoc(chunks[1..], b);
      Assoc(chunks[0], Flat(chunks[1..]), b);
    }
  }

  lemma {:induction false} QueueAllAppends(c: Client, chunks: seq<Bytes>)
    ensures QueueAll(c, chunks) == c.(write := c.write + Flat(chunks), drained := c.drained + Flat(chunks))
    decreases |chunks|
  {
    if chunks == [] {
      assert c.write + [] == c.write && c.drained + [] == c.drained;
    } else {
      QueueAllAppends(QueueEncrypted(c, chunks[0]), chunks[1..]);
      Assoc(c.write, chunks[0], Flat(chunks[1..]));
      Assoc(c.drained, chunks[0], Flat(chunks[1..]));
    }
  }

  /** A handshake step: it queues what the output BIO gives when it wants input or output, and fails then unless
      the BIO is to be retried. */
  lemma HandshakeExact(c: Client, status: SslStatus, r: BioReads)
    ensures var bytes := if status == WANT_IO then Flat(r.chunks) else [];
            Handshake(c, status, r) == (c.(write := c.write + bytes, drained := c.drained + bytes),
                                        if status == WANT_IO && !r.retry then FAIL else status)
  {
    QueueAllAppends(c, r.chunks);
    assert c.write + [] == c.write && c.drained + [] == c.drained;
  }

  lemma TurnQueues(c: Client, t: ReadTurn)
    ensures var hs := if t.n > 0 && !t.wasDone && t.hsStatus == WANT_IO then Flat(t.hsReads.chunks) else [];
            var on := t.n > 0 && (t.wasDone || (t.isDone && (t.hsStatus == STATUS_OK || (t.hsStatus == WANT_IO && t.hsReads.retry))));
            var rest := if on && t.status == WANT_IO then Flat(t.reads_.chunks) else [];
            AfterTurn(c, t).0 == c.(write := c.write + hs + rest, drained := c.drained + hs + rest)
  {
    HandshakeExact(c, t.hsStatus, t.hsReads);
    var d := if t.wasDone then c else Handshake(c, t.hsStatus, t.hsReads).0;
    QueueAllAppends(d, t.reads_.chunks);
    assert c.write + [] == c.write && c.drained + [] == c.drained;
    assert d.write + [] == d.write && d.drained + [] == d.drained;
  }

  /** One turn of on_read_cb queues what the output BIO gives to the handshake and, once that is finished, to what
      follows; nothing else changes. */
  lemma OnReadOne(c: Client, len: nat, t: ReadTurn)
    requires len > 0
    ensures var hs := if t.n > 0 && !t.wasDone && t.hsStatus == WANT_IO then Flat(t.hsReads.chunks) else [];
            var on := t.n > 0 && (t.wasDone || (t.isDone && (t.hsStatus == STATUS_OK || (t.hsStatus == WANT_IO && t.hsReads.retry))));
            var rest := if on && t.status == WANT_IO then Flat(t.reads_.chunks) else [];
            OnRead(c, len, [t]).0 == c.(write := c.write + hs + rest, drained := c.drained + hs + rest)
  {
    TurnQueues(c, t);
    assert [t][1..] == [];
    assert OnRead(c, len, [t]).0 == AfterTurn(c, t).0;
  }

  lemma MoreStep(c: Client, len: nat, turns: seq<ReadTurn>, more: seq<ReadTurn>)
    requires len > 0 && turns != []
    ensures var t, left := turns[0], if turns[0].n < len then len - turns[0].n else 0;
            && (Passing(t) ==>
                  && OnRead(c, len, turns) == OnRead(AfterTurn(c, t).0, left, turns[1..])
                  && OnRead(c, len, turns + more) == OnRead(AfterTurn(c, t).0, left, turns[1..] + more))
            && (!Passing(t) ==> OnRead(c, len, turns).1 != None && OnRead(c, len, turns + more) == OnRead(c, len, turns))
  {
    assert (turns + more)[0] == turns[0] && (turns + more)[1..] == turns[1..] + more;
    TurnEnds(c, len, turns);
    TurnEnds(c, len, turns + more);
    if !Passing(turns[0]) {
      SameEnd(c, len, turns, turns + more);
    }
  }

  lemma WaitingTurns(c: Client, len: nat, turns: seq<ReadTurn>, fed: seq<int>)
    requires Feeds(fed, turns) && fed[0] == 0 && turns != []
    ensures OnRead(c, len, turns).1 == None ==> fed[|turns|] < len && turns[0].n <= fed[|turns|]
  {
    OnReadEnds(c, len, turns, fed);
    if OnRead(c, len, turns).1 == None {
      PassingGrow(fed, turns, 1, |turns|);
      FedGrows(fed, turns);
    }
  }

  /** More turns: they are not looked at once there is a result, and go on from there when there is none. */
  lemma {:induction false} OnReadMore(c: Client, len: nat, turns: seq<ReadTurn>, more: seq<ReadTurn>, fed: seq<int>)
    requires |fed| == |turns| + 1 && fed[0] == 0 && forall i :: 0 <= i < |turns| ==> fed[i + 1] == fed[i] + turns[i].n
    ensures var r := OnRead(c, len, turns);
            && (r.1 != None ==> OnRead(c, len, turns + more) == r)
            && (r.1 == None ==> fed[|turns|] < len && OnRead(c, len, turns + more) == OnRead(r.0, len - fed[|turns|], more))
    decreases |turns|
  {
    if turns == [] {
      assert [] + more == more;
    } else if len > 0 {
      var t, rest := turns[0], turns[1..];
      var left := if t.n < len then len - t.n else 0;
      var later := seq(|rest| + 1, i requires 0 <= i <= |rest| => fed[i + 1] - t.n);
      MoreStep(c, len, turns, more);
      WaitingTurns(c, len, turns, fed);
      if Passing(t) {
        OnReadMore(AfterTurn(c, t).0, left, rest, more, later);
        assert later[|rest|] == fed[|turns|] - t.n;
      }
    }
  }

  lemma SameEnd(c: Client, len: nat, a: seq<ReadTurn>, b: seq<ReadTurn>)
    requires len > 0 && a != [] && b != [] && a[0] == b[0] && !Passing(a[0])
    ensures OnRead(c, len, a) == OnRead(c, len, b) && OnRead(c, len, a).1 != None
  {
  }

  // ---------------------------------------------------------------- do_encrypt

  /** The loop ends with -1 at this answer. */
  predicate WriteFails(w: SslWrite) {
    w.status == FAIL || (w.n > 0 && !w.reads_.retry)
  }

  /** The loop ends with 0 at this answer. */
  predicate WriteEnds(w: SslWrite) {
    !WriteFails(w) && (w.n == 0 || (w.n > 0 && w.reads_.stop == 0))
  }

  /** The bytes that wait after the first `k` answers. */
  ghost predicate Leaves(left: seq<nat>, writes: seq<SslWrite>) {
    && |left| == |writes| + 1
    && forall i :: 0 <= i < |writes| ==>
         left[i + 1] == if writes[i].n <= 0 then left[i] else if writes[i].n < left[i] then left[i] - writes[i].n else 0
  }

  lemma WriteStep(c: Client, writes: seq<SslWrite>) returns (d: Client)
    requires c.encrypt != [] && writes != []
    ensures var w := writes[0];
            && |d.encrypt| == (if w.n <= 0 then |c.encrypt| else if w.n < |c.encrypt| then |c.encrypt| - w.n else 0)
            && (WriteFails(w) ==> Encrypt(c, writes).1 == Some(-1))
            && (WriteEnds(w) ==> Encrypt(c, writes).1 == Some(0))
            && (!WriteFails(w) && !WriteEnds(w) ==> Encrypt(c, writes) == Encrypt(d, writes[1..]))
  {
    var w := writes[0];
    d := if w.n > 0 then QueueAll(Accept(c, w.n), w.reads_.chunks) else c;
    QueueAllAppends(Accept(c, w.n), w.reads_.chunks);
  }

  ghost predicate AllGoOn(writes: seq<SslWrite>, k: nat)
    requires k <= |writes|
  {
    forall j :: 0 <= j < k ==> !WriteFails(writes[j]) && !WriteEnds(writes[j])
  }

  lemma {:induction false} EncryptStops(c: Client, writes: seq<SslWrite>, left: seq<nat>) returns (k: nat)
    requires Leaves(left, writes) && left[0] == |c.encrypt|
    ensures k <= |writes| && AllGoOn(writes, k) && forall j :: 0 <= j < k ==> left[j] > 0
    ensures Encrypt(c, writes).1 ==
              if left[k] == 0 then Some(0) else if k == |writes| then None else if WriteFails(writes[k]) then Some(-1) else Some(0)
    ensures left[k] > 0 && k < |writes| ==> WriteFails(writes[k]) || WriteEnds(writes[k])
    decreases |writes|
  {
    k := 0;
    if c.encrypt != [] && writes != [] {
      var w, rest := writes[0], writes[1..];
      var d := WriteStep(c, writes);
      if !WriteFails(w) && !WriteEnds(w) {
        assert left[0 + 1] == |d.encrypt|;
        var m := EncryptStops(d, rest, left[1..]);
        k := m + 1;
        forall j | 0 <= j < k
          ensures !WriteFails(writes[j]) && !WriteEnds(writes[j]) && left[j] > 0
        {
          if j > 0 {
            assert writes[j] == rest[j - 1] && left[j] == left[1..][j - 1];
          }
        }
      }
    }
  }

  lemma {:induction false} NothingStays(left: seq<nat>, writes: seq<SslWrite>, i: nat, k: nat)
    requires Leaves(left, writes) && i <= k <= |writes| && left[i] == 0
    ensures left[k] == 0
    decreases k - i
  {
    if i < k {
      NothingStays(left, writes, i, k - 1);
      assert left[k - 1 + 1] == left[k];
    }
  }

  lemma EncryptEnds(c: Client, writes: seq<SslWrite>, left: seq<nat>)
    requires Leaves(left, writes) && left[0] == |c.encrypt|
    ensures var rc := Encrypt(c, writes).1;
            && (rc == Some(-1) <==> exists k :: 0 <= k < |writes| && left[k] > 0 && WriteFails(writes[k]) && AllGoOn(writes, k))
            && (rc == Some(0) <==>
                  exists k :: 0 <= k <= |writes| && (left[k] == 0 || (k < |writes| && WriteEnds(writes[k]))) && AllGoOn(writes, k))
            && (rc == None <==> left[|writes|] > 0 && AllGoOn(writes, |writes|))
  {
    var k := EncryptStops(c, writes, left);
    forall m | 0 <= m <= |writes| && AllGoOn(writes, m)
      ensures m <= k || left[m] == 0
    {
      if m > k && left[k] == 0 {
        NothingStays(left, writes, k, m);
      }
    }
  }

  /** The code -1 of do_encrypt once the handshake is finished: an answer of SSL_write fails, or is followed by an
      output BIO that must not be retried, while bytes wait and no answer before it has ended the loop. */
  lemma EncryptFails(c: Client, writes: seq<SslWrite>, left: seq<nat>)
    requires |left| == |writes| + 1 && left[0] == |c.encrypt|
    requires forall i :: 0 <= i < |writes| ==>
               left[i + 1] == if writes[i].n <= 0 then left[i] else if writes[i].n < left[i] then left[i] - writes[i].n else 0
    ensures var fails := (w: SslWrite) => w.status == FAIL || (w.n > 0 && !w.reads_.retry);
            var ends := (w: SslWrite) => w.n == 0 || (w.n > 0 && w.reads_.stop == 0);
            Encrypt(c, writes).1 == Some(-1) <==>
              exists k :: 0 <= k < |writes| && left[k] > 0 && fails(writes[k])
                       && forall j :: 0 <= j < k ==> !fails(writes[j]) && !ends(writes[j])
  {
    EncryptEnds(c, writes, left);
  }

  /** The code 0: nothing waits any more, or SSL_write takes nothing without failing, or the last read of the BIO
      gives 0. */
  lemma EncryptSucceeds(c: Client, writes: seq<SslWrite>, left: seq<nat>)
    requires |left| == |writes| + 1 && left[0] == |c.encrypt|
    requires forall i :: 0 <= i < |writes| ==>
               left[i + 1] == if writes[i].n <= 0 then left[i] else if writes[i].n < left[i] then left[i] - writes[i].n else 0
    ensures var fails := (w: SslWrite) => w.status == FAIL || (w.n > 0 && !w.reads_.retry);
            var ends := (w: SslWrite) => w.n == 0 || (w.n > 0 && w.reads_.stop == 0);
            Encrypt(c, writes).1 == Some(0) <==>
              exists k :: 0 <= k <= |writes| && (left[k] == 0 || (k < |writes| && ends(writes[k]) && !fails(writes[k])))
                       && forall j :: 0 <= j < k ==> !fails(writes[j]) && !ends(writes[j])
  {
    EncryptEnds(c, writes, left);
  }

  /** One answer of SSL_write: the bytes it takes leave the queue, and those the output BIO then gives are queued. */
  lemma EncryptOne(c: Client, w: SslWrite)
    requires c.encrypt != []
    ensures var n := if w.n <= 0 then 0 else if w.n < |c.encrypt| then w.n else |c.encrypt|;
            var bytes := if w.n > 0 then Flat(w.reads_.chunks) else [];
            Encrypt(c, [w]).0 == Client(c.encrypt[n..], c.write + bytes, c.queued, c.accepted + c.encrypt[..n],
                                        c.drained + bytes, c.sent)
  {
    assert [w][1..] == [];
    QueueAllAppends(Accept(c, w.n), w.reads_.chunks);
    assert c.write + [] == c.write && c.drained + [] == c.drained && c.accepted + [] == c.accepted;
  }
}
