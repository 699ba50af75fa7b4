/** The ring queue of lib_src/ipc/dap_sQueue.c: a bounded FIFO over `qnum` cells with a second,
    snapshot cursor, and a backup file of fixed-size records.

    `Ring` is the value of the globals; each operation is a function on it. The abstraction is the
    history of every record ever put since Init, with positions into it for the two cursors. The class
    at the end runs the same operations on an array. */
module RingQueue {
  import opened CStrings

  const RECORD_SIZE: nat := 204804

  type Record = r: seq<bv8> | |r| == RECORD_SIZE witness seq(RECORD_SIZE, _ => 0)

  datatype Globals = Globals(cells: seq<Record>, front: nat, rear: nat, width: int, cfront: nat, crear: nat, cwidth: int)

  /** The globals with an array in place: every index is inside it. */
  type Ring = q: Globals | Shape(q) witness Globals([Blank()], 0, 0, 0, 0, 0, 0)

  function Blank(): (r: Record) {
    seq(RECORD_SIZE, _ => 0)
  }

  /** fipc_SQInit after a successful calloc. */
  function Init(qsiz: nat): (q: Ring) {
    Globals(seq(qsiz + 1, _ => Blank()), 0, 0, 0, 0, 0, 0)
  }

  predicate Shape(q: Globals) {
    && |q.cells| > 0
    && q.front < |q.cells| && q.rear < |q.cells| && q.cfront < |q.cells| && q.crear < |q.cells|
  }

  predicate IsFull(q: Ring) {
    q.front == (q.rear + 1) % |q.cells|
  }

  predicate IsEmpty(q: Ring) {
    q.front == q.rear
  }

  predicate IsAllRead(q: Ring) {
    q.cfront == q.crear
  }

  function Put(q: Ring, x: Record): (r: (Ring, int)) {
    if IsFull(q) then (q, -1)
    else (q.(cells := q.cells[q.rear := x], rear := (q.rear + 1) % |q.cells|, width := q.width + 1), 0)
  }

  function Get(q: Ring): (r: (Ring, Option<Record>)) {
    if IsEmpty(q) then (q, None)
    else (q.(front := (q.front + 1) % |q.cells|, width := q.width - 1), Some(q.cells[q.front]))
  }

  function CrReset(q: Ring): (r: Ring) {
    q.(crear := q.rear, cfront := q.front, cwidth := q.width)
  }

  function Read(q: Ring): (r: (Ring, Option<Record>)) {
    if IsAllRead(q) then (q, None)
    else (q.(cfront := (q.cfront + 1) % |q.cells|, cwidth := q.cwidth - 1), Some(q.cells[q.cfront]))
  }

  // ---------------------------------------------------------------- arithmetic of wrapping indices

  /** The cell of history position `i` in a ring of `qnum` cells. */
  function Cell(i: nat, qnum: nat): (c: nat)
    requires 0 < qnum
    ensures c < qnum
  {
    if i < qnum then i else Cell(i - qnum, qnum)
  }

  /** Moving at most one turn ahead adds to the cell number and wraps once. */
  lemma {:induction false} CellAhead(i: nat, j: nat, qnum: nat)
    requires 0 < qnum && i <= j <= i + qnum
    ensures Cell(j, qnum) == if Cell(i, qnum) + (j - i) < qnum then Cell(i, qnum) + (j - i) else Cell(i, qnum) + (j - i) - qnum
    decreases i
  {
    if i >= qnum {
      CellAhead(i - qnum, j - qnum, qnum);
    }
  }

  lemma WrapStep(r: nat, qnum: nat)
    requires r < qnum
    ensures (r + 1) % qnum == if r + 1 == qnum then 0 else r + 1
  {
  }

  lemma WrapDifference(d: int, qnum: nat)
    requires 0 < d + qnum && d < qnum
    ensures d % qnum == if d < 0 then d + qnum else d
  {
    if d < 0 {
      assert (d + qnum) % qnum == d + qnum;
      assert d == qnum * (-1) + (d + qnum);
    }
  }

  // ---------------------------------------------------------------- the abstract queue

  /** `hist`: all records put; `got`: how many were taken; the snapshot is `hist[cgot..cend]`. */
  datatype Abs = Abs(hist: seq<Record>, got: nat, cgot: nat, cend: nat)

  predicate AbsOk(a: Abs, qnum: nat) {
    && 0 < qnum && a.got <= |a.hist| < a.got + qnum
    && a.cgot <= a.cend <= |a.hist| && a.cend < a.cgot + qnum
  }

  function Contents(a: Abs): (s: seq<Record>)
    requires a.got <= |a.hist|
  {
    a.hist[a.got..]
  }

  /** The record that the cell of history position `i` holds now: the newest one put on that cell. */
  function Newest(a: Abs, i: nat, qnum: nat): (r: nat)
    requires i < |a.hist| && 0 < qnum
    ensures i <= r < |a.hist| < r + qnum + 1
    decreases |a.hist| - i
  {
    if i + qnum < |a.hist| then Newest(a, i + qnum, qnum) else i
  }

  /** Every cell holds the newest record of its positions. */
  ghost predicate Holds(cells: seq<Record>, hist: seq<Record>)
    requires 0 < |cells|
  {
    forall i :: 0 <= i < |hist| < i + |cells| + 1 ==> cells[Cell(i, |cells|)] == hist[i]
  }

  /** The globals are the history reduced modulo the number of cells. */
  ghost predicate Rel(q: Ring, a: Abs) {
    && AbsOk(a, |q.cells|)
    && q.rear == Cell(|a.hist|, |q.cells|) && q.front == Cell(a.got, |q.cells|) && q.width == |a.hist| - a.got
    && q.crear == Cell(a.cend, |q.cells|) && q.cfront == Cell(a.cgot, |q.cells|) && q.cwidth == a.cend - a.cgot
    && Holds(q.cells, a.hist)
  }

  function AbsPut(a: Abs, x: Record, qnum: nat): (r: (Abs, int))
    requires AbsOk(a, qnum)
    ensures AbsOk(r.0, qnum)
  {
    if |Contents(a)| == qnum - 1 then (a, -1) else (a.(hist := a.hist + [x]), 0)
  }

  function AbsGet(a: Abs, qnum: nat): (r: (Abs, Option<Record>))
    requires AbsOk(a, qnum)
    ensures AbsOk(r.0, qnum)
  {
    if Contents(a) == [] then (a, None) else (a.(got := a.got + 1), Some(Contents(a)[0]))
  }

  function AbsReset(a: Abs): Abs {
    a.(cgot := a.got, cend := |a.hist|)
  }

  function AbsRead(a: Abs, qnum: nat): (r: (Abs, Option<Record>))
    requires AbsOk(a, qnum)
    ensures AbsOk(r.0, qnum)
  {
    if a.cgot == a.cend then (a, None)
    else (a.(cgot := a.cgot + 1), Some(a.hist[Newest(a, a.cgot, qnum)]))
  }

  // ---------------------------------------------------------------- refinement, operation by operation

  const NEW_QUEUE := Abs([], 0, 0, 0)

  lemma InitRefines(qsiz: nat)
    ensures Rel(Init(qsiz), NEW_QUEUE) && |Init(qsiz).cells| == qsiz + 1
  {
  }

  /** The new record lands on a cell that no position in reach shares. */
  lemma PutCells(q: Ring, a: Abs, x: Record)
    requires Rel(q, a)
    ensures Holds(q.cells[q.rear := x], a.hist + [x])
  {
    forall i | 0 <= i < |a.hist| + 1 < i + |q.cells| + 1
      ensures q.cells[q.rear := x][Cell(i, |q.cells|)] == (a.hist + [x])[i]
    {
      CellAhead(i, |a.hist|, |q.cells|);
    }
  }

  lemma FullWhenNoRoom(q: Ring, a: Abs)
    requires Rel(q, a)
    ensures IsFull(q) <==> |a.hist| - a.got == |q.cells| - 1
    ensures (q.rear + 1) % |q.cells| == Cell(|a.hist| + 1, |q.cells|)
  {
    WrapStep(q.rear, |q.cells|);
    CellAhead(|a.hist|, |a.hist| + 1, |q.cells|);
    CellAhead(a.got, |a.hist|, |q.cells|);
  }

  lemma PutRefines(q: Ring, a: Abs, x: Record)
    requires Rel(q, a)
    ensures Rel(Put(q, x).0, AbsPut(a, x, |q.cells|).0) && Put(q, x).1 == AbsPut(a, x, |q.cells|).1
  {
    FullWhenNoRoom(q, a);
    PutCells(q, a, x);
  }

  /** A cursor stands at its end cell exactly at its end position, and steps along with it. */
  lemma CursorAhead(c: nat, pos: nat, e: nat, end: nat, qnum: nat)
    requires 0 < qnum && pos <= end < pos + qnum && c == Cell(pos, qnum) && e == Cell(end, qnum)
    ensures c == e <==> pos == end
    ensures (c + 1) % qnum == Cell(pos + 1, qnum)
  {
    WrapStep(c, qnum);
    CellAhead(pos, end, qnum);
    CellAhead(pos, pos + 1, qnum);
  }

  lemma GetRefines(q: Ring, a: Abs)
    requires Rel(q, a)
    ensures Rel(Get(q).0, AbsGet(a, |q.cells|).0) && Get(q).1 == AbsGet(a, |q.cells|).1
  {
    CursorAhead(q.front, a.got, q.rear, |a.hist|, |q.cells|);
    if a.got < |a.hist| {
      OldestCell(q, a);
    }
  }

  lemma OldestCell(q: Ring, a: Abs)
    requires Rel(q, a) && a.got < |a.hist|
    ensures q.cells[q.front] == a.hist[a.got] == Contents(a)[0]
  {
    assert Cell(a.got, |q.cells|) == q.front;
  }

  lemma {:induction false} NewestCell(q: Ring, a: Abs, i: nat)
    requires Rel(q, a) && i < |a.hist|
    ensures q.cells[Cell(i, |q.cells|)] == a.hist[Newest(a, i, |q.cells|)]
    decreases |a.hist| - i
  {
    if i + |q.cells| < |a.hist| {
      NewestCell(q, a, i + |q.cells|);
    }
  }

  lemma ReadRefines(q: Ring, a: Abs)
    requires Rel(q, a)
    ensures Rel(Read(q).0, AbsRead(a, |q.cells|).0) && Read(q).1 == AbsRead(a, |q.cells|).1
  {
    CursorAhead(q.cfront, a.cgot, q.crear, a.cend, |q.cells|);
    if a.cgot < a.cend {
      NewestCell(q, a, a.cgot);
    }
  }

  lemma ResetRefines(q: Ring, a: Abs)
    requires Rel(q, a)
    ensures Rel(CrReset(q), AbsReset(a)) && |CrReset(q).cells| == |q.cells|
  {
  }

  // ---------------------------------------------------------------- runs

  datatype Op = OpPut(x: Record) | OpGet | OpReset | OpRead

  datatype Out = Code(n: int) | Taken(r: Option<Record>) | Nothing

  function Do(q: Ring, op: Op): (r: (Ring, Out)) {
    match op
    case OpPut(x) => var (p, c) := Put(q, x); (p, Code(c))
    case OpGet => var (p, r) := Get(q); (p, Taken(r))
    case OpReset => (CrReset(q), Nothing)
    case OpRead => var (p, r) := Read(q); (p, Taken(r))
  }

  function AbsDo(a: Abs, op: Op, qnum: nat): (r: (Abs, Out))
    requires AbsOk(a, qnum)
    ensures AbsOk(r.0, qnum)
  {
    match op
    case OpPut(x) => var (p, c) := AbsPut(a, x, qnum); (p, Code(c))
    case OpGet => var (p, r) := AbsGet(a, qnum); (p, Taken(r))
    case OpReset => (AbsReset(a), Nothing)
    case OpRead => var (p, r) := AbsRead(a, qnum); (p, Taken(r))
  }

  function Run(q: Ring, ops: seq<Op>): (r: (Ring, seq<Out>))
    decreases |ops|
  {
    if ops == [] then (q, [])
    else
      var (p, o) := Do(q, ops[0]);
      var (p', os) := Run(p, ops[1..]);
      (p', [o] + os)
  }

  function AbsRun(a: Abs, ops: seq<Op>, qnum: nat): (r: (Abs, seq<Out>))
    requires AbsOk(a, qnum)
    ensures AbsOk(r.0, qnum)
    decreases |ops|
  {
    if ops == [] then (a, [])
    else
      var (b, o) := AbsDo(a, ops[0], qnum);
      var (b', os) := AbsRun(b, ops[1..], qnum);
      (b', [o] + os)
  }

  lemma DoRefines(q: Ring, a: Abs, op: Op)
    requires Rel(q, a)
    ensures Rel(Do(q, op).0, AbsDo(a, op, |q.cells|).0) && Do(q, op).1 == AbsDo(a, op, |q.cells|).1
    ensures |Do(q, op).0.cells| == |q.cells|
  {
    match op
    case OpPut(x) => PutRefines(q, a, x);
    case OpGet => GetRefines(q, a);
    case OpReset => ResetRefines(q, a);
    case OpRead => ReadRefines(q, a);
  }

  /** Every run of the ring gives the outputs of the bounded FIFO, and ends in a state that stands for
      the FIFO's. */
  lemma {:induction false} RunRefines(q: Ring, a: Abs, ops: seq<Op>)
    requires Rel(q, a)
    ensures Run(q, ops).1 == AbsRun(a, ops, |q.cells|).1
    ensures Rel(Run(q, ops).0, AbsRun(a, ops, |q.cells|).0) && |Run(q, ops).0.cells| == |q.cells|
    decreases |ops|
  {
    if ops != [] {
      DoRefines(q, a, ops[0]);
      RunRefines(Do(q, ops[0]).0, AbsDo(a, ops[0], |q.cells|).0, ops[1..]);
    }
  }

  // A session may also start over: fipc_SQInit, or one of the operations above.
  datatype Call = Start(qsiz: nat) | Use(op: Op)

  function Session(q: Ring, calls: seq<Call>): (r: (Ring, seq<Out>))
    decreases |calls|
  {
    if calls == [] then (q, [])
    else
      var (p, o) := match calls[0] case Start(qsiz) => (Init(qsiz), Code(0)) case Use(op) => Do(q, op);
      var (p', os) := Session(p, calls[1..]);
      (p', [o] + os)
  }

  /** The same calls on the bounded FIFO, whose capacity each Start sets anew. */
  function AbsSession(a: Abs, qnum: nat, calls: seq<Call>): (r: (Abs, nat, seq<Out>))
    requires AbsOk(a, qnum)
    ensures AbsOk(r.0, r.1)
    decreases |calls|
  {
    if calls == [] then (a, qnum, [])
    else
      match calls[0]
      case Start(qsiz) =>
        var (b, n, os) := AbsSession(NEW_QUEUE, qsiz + 1, calls[1..]);
        (b, n, [Code(0)] + os)
      case Use(op) =>
        var (c, o) := AbsDo(a, op, qnum);
        var (b, n, os) := AbsSession(c, qnum, calls[1..]);
        (b, n, [o] + os)
  }

  /** A session gives the outputs of the FIFO and ends in a state that stands for the FIFO's. */
  ghost predicate SameSession(q: Ring, a: Abs, calls: seq<Call>)
    requires Rel(q, a)
  {
    var (b, n, outs) := AbsSession(a, |q.cells|, calls);
    Session(q, calls).1 == outs && Rel(Session(q, calls).0, b) && |Session(q, calls).0.cells| == n
  }

  lemma NextCall(q: Ring, a: Abs, calls: seq<Call>) returns (next: Ring, b: Abs)
    requires Rel(q, a) && calls != []
    ensures Rel(next, b) && (SameSession(next, b, calls[1..]) ==> SameSession(q, a, calls))
  {
    match calls[0]
    case Start(qsiz) =>
      next, b := Init(qsiz), NEW_QUEUE;
      InitRefines(qsiz);
    case Use(op) =>
      next, b := Do(q, op).0, AbsDo(a, op, |q.cells|).0;
      DoRefines(q, a, op);
  }

  /** Every session of starts and operations gives the outputs of the bounded FIFO. */
  lemma {:induction false} SessionRefines(q: Ring, a: Abs, calls: seq<Call>)
    requires Rel(q, a)
    ensures var (b, n, outs) := AbsSession(a, |q.cells|, calls);
            && Session(q, calls).1 == outs && Rel(Session(q, calls).0, b) && |Session(q, calls).0.cells| == n
    decreases |calls|
  {
    if calls != [] {
      var next, b := NextCall(q, a, calls);
      SessionRefines(next, b, calls[1..]);
      assert SameSession(q, a, calls);
    }
  }

  /** The counter is the length of the queue, and the distance from front to rear. */
  lemma WidthIsLength(q: Ring, a: Abs)
    requires Rel(q, a)
    ensures q.width == |Contents(a)| < |q.cells|
    ensures q.width == (q.rear - q.front) % |q.cells|
    ensures IsFull(q) <==> q.width == |q.cells| - 1
    ensures IsEmpty(q) <==> q.width == 0
  {
    CellAhead(a.got, |a.hist|, |q.cells|);
    WrapDifference(q.rear - q.front, |q.cells|);
    WrapStep(q.rear, |q.cells|);
  }

  /** Put gives 0 and appends while there are fewer records than cells less one, else -1 and changes nothing. */
  lemma PutSays(q: Ring, a: Abs, x: Record) returns (b: Abs)
    requires Rel(q, a)
    ensures Rel(Put(q, x).0, b)
    ensures |Contents(a)| < |q.cells| - 1 ==> Put(q, x).1 == 0 && Contents(b) == Contents(a) + [x]
    ensures |Contents(a)| >= |q.cells| - 1 ==> Put(q, x) == (q, -1) && b == a
  {
    PutRefines(q, a, x);
    b := AbsPut(a, x, |q.cells|).0;
    AbsPutAppends(a, x, |q.cells|);
  }

  /** Get gives the oldest record and takes it out, or nothing when there is none. */
  lemma GetSays(q: Ring, a: Abs) returns (b: Abs)
    requires Rel(q, a)
    ensures Rel(Get(q).0, b)
    ensures Contents(a) != [] ==> Get(q).1 == Some(Contents(a)[0]) && Contents(b) == Contents(a)[1..]
    ensures Contents(a) == [] ==> Get(q) == (q, None) && b == a
  {
    GetRefines(q, a);
    b := AbsGet(a, |q.cells|).0;
  }

  // ---------------------------------------------------------------- conservation and replay

  /** The record one operation placed. */
  function Placed(op: Op, out: Out): seq<Record> {
    if op.OpPut? && out == Code(0) then [op.x] else []
  }

  /** The record one operation handed out, when it is the operation `via`. */
  function Given(op: Op, out: Out, via: Op): seq<Record> {
    if op == via && out.Taken? && out.r.Some? then [out.r.value] else []
  }

  /** The records that the Puts of a run placed, in order. */
  function Accepted(ops: seq<Op>, outs: seq<Out>): seq<Record>
    requires |ops| == |outs|
  {
    if ops == [] then [] else Placed(ops[0], outs[0]) + Accepted(ops[1..], outs[1..])
  }

  /** The records that the operations `via` of a run handed out, in order. */
  function Handed(ops: seq<Op>, outs: seq<Out>, via: Op): seq<Record>
    requires |ops| == |outs|
  {
    if ops == [] then [] else Given(ops[0], outs[0], via) + Handed(ops[1..], outs[1..], via)
  }

  lemma {:induction false} AbsRunLength(a: Abs, ops: seq<Op>, qnum: nat)
    requires AbsOk(a, qnum)
    ensures |AbsRun(a, ops, qnum).1| == |ops|
    decreases |ops|
  {
    if ops != [] {
      AbsRunLength(AbsDo(a, ops[0], qnum).0, ops[1..], qnum);
    }
  }

  lemma AbsDoConserves(a: Abs, op: Op, qnum: nat)
    requires AbsOk(a, qnum)
    ensures var (b, o) := AbsDo(a, op, qnum);
            Contents(a) + Placed(op, o) == Given(op, o, OpGet) + Contents(b)
  {
  }

  lemma Rearrange<T>(c: seq<T>, p: seq<T>, ps: seq<T>, g: seq<T>, b: seq<T>, gs: seq<T>, d: seq<T>)
    requires c + p == g + b && b + ps == gs + d
    ensures c + (p + ps) == (g + gs) + d
  {
    assert c + (p + ps) == (c + p) + ps;
    assert (g + b) + ps == g + (b + ps);
    assert g + (gs + d) == (g + gs) + d;
  }

  lemma {:induction false} AbsConserves(a: Abs, ops: seq<Op>, qnum: nat)
    requires AbsOk(a, qnum)
    ensures |AbsRun(a, ops, qnum).1| == |ops|
    ensures var (b, outs) := AbsRun(a, ops, qnum);
            Contents(a) + Accepted(ops, outs) == Handed(ops, outs, OpGet) + Contents(b)
    decreases |ops|
  {
    AbsRunLength(a, ops, qnum);
    if ops != [] {
      var (b, o) := AbsDo(a, ops[0], qnum);
      var (d, os) := AbsRun(b, ops[1..], qnum);
      AbsDoConserves(a, ops[0], qnum);
      AbsConserves(b, ops[1..], qnum);
      assert ([o] + os)[1..] == os;
      Rearrange(Contents(a), Placed(ops[0], o), Accepted(ops[1..], os), Given(ops[0], o, OpGet),
                Contents(b), Handed(ops[1..], os, OpGet), Contents(d));
    }
  }

  /** First in, first out, nothing lost: what a run found in the queue and put into it is what it took
      out followed by what it left, whatever resets and reads happen in between. */
  lemma RunConserves(q: Ring, a: Abs, ops: seq<Op>) returns (b: Abs)
    requires Rel(q, a)
    ensures Rel(Run(q, ops).0, b) && |Run(q, ops).1| == |ops|
    ensures Contents(a) + Accepted(ops, Run(q, ops).1) == Handed(ops, Run(q, ops).1, OpGet) + Contents(b)
  {
    RunRefines(q, a, ops);
    AbsConserves(a, ops, |q.cells|);
    b := AbsRun(a, ops, |q.cells|).0;
  }

  /** `b` is a later state in which the snapshot of `a0` is being replayed. */
  ghost predicate Replaying(a0: Abs, b: Abs) {
    |a0.hist| <= |b.hist| && b.hist[..|a0.hist|] == a0.hist && b.cend == |a0.hist| && a0.got <= b.cgot <= b.cend
  }

  /** Between `a` and `b` the records `puts` were placed and `reads` replayed; the replay is exact unless
      the history has lapped the snapshot. */
  ghost predicate Replayed(a0: Abs, a: Abs, b: Abs, puts: seq<Record>, given: seq<Record>, qnum: nat) {
    && b.hist == a.hist + puts && b.cgot == a.cgot + |given| && b.cgot <= |a0.hist|
    && (|b.hist| <= a0.got + qnum ==> given == a0.hist[a.cgot..b.cgot])
  }

  lemma ReplayStep(a0: Abs, a: Abs, op: Op, qnum: nat)
    requires AbsOk(a, qnum) && op != OpReset && Replaying(a0, a)
    ensures var (b, o) := AbsDo(a, op, qnum);
            Replaying(a0, b) && Replayed(a0, a, b, Placed(op, o), Given(op, o, OpRead), qnum)
  {
  }

  lemma ReplayedThen(a0: Abs, a: Abs, b: Abs, d: Abs, p: seq<Record>, ps: seq<Record>, r: seq<Record>, rs: seq<Record>, qnum: nat)
    requires Replayed(a0, a, b, p, r, qnum) && Replayed(a0, b, d, ps, rs, qnum)
    ensures Replayed(a0, a, d, p + ps, r + rs, qnum)
  {
    assert a.hist + (p + ps) == a.hist + p + ps;
  }

  lemma {:induction false} ReplayRun(a0: Abs, a: Abs, ops: seq<Op>, qnum: nat)
    requires AbsOk(a, qnum) && OpReset !in ops && Replaying(a0, a)
    ensures |AbsRun(a, ops, qnum).1| == |ops|
    ensures var (b, outs) := AbsRun(a, ops, qnum);
            Replaying(a0, b) && Replayed(a0, a, b, Accepted(ops, outs), Handed(ops, outs, OpRead), qnum)
    decreases |ops|
  {
    AbsRunLength(a, ops, qnum);
    if ops != [] {
      var (b, o) := AbsDo(a, ops[0], qnum);
      var (d, os) := AbsRun(b, ops[1..], qnum);
      ReplayStep(a0, a, ops[0], qnum);
      ReplayRun(a0, b, ops[1..], qnum);
      assert ([o] + os)[1..] == os;
      ReplayedThen(a0, a, b, d, Placed(ops[0], o), Accepted(ops[1..], os),
                   Given(ops[0], o, OpRead), Handed(ops[1..], os, OpRead), qnum);
    }
  }

  lemma {:induction false} NewestLater(a: Abs, i: nat, qnum: nat)
    requires AbsOk(a, qnum) && i + qnum < |a.hist|
    ensures Newest(a, i, qnum) >= i + qnum
    decreases |a.hist| - i
  {
    if i + qnum + qnum < |a.hist| {
      NewestLater(a, i + qnum, qnum);
    }
  }

  /** What a read may give when `given` of the snapshot was replayed and `puts` were placed since. */
  ghost predicate SnapshotNext(snapshot: seq<Record>, given: seq<Record>, puts: seq<Record>, qnum: nat, next: Option<Record>) {
    var w, k := |snapshot|, |given|;
    && k <= w && (next == None <==> k == w)
    && (k < w && |puts| <= qnum - w + k ==> next == Some(snapshot[k]))
    && (k < w && |puts| > qnum - w + k ==> next.Some? && next.value in puts)
  }

  lemma AbsSnapshotRead(a: Abs, b: Abs, puts: seq<Record>, given: seq<Record>, qnum: nat)
    requires AbsOk(a, qnum) && AbsOk(b, qnum) && Replaying(a, b)
    requires b.hist == a.hist + puts && b.cgot == a.got + |given|
    ensures SnapshotNext(Contents(a), given, puts, qnum, AbsRead(b, qnum).1)
  {
    if b.cgot < b.cend && |b.hist| > b.cgot + qnum {
      NewestLater(b, b.cgot, qnum);
      var i := Newest(b, b.cgot, qnum);
      assert b.hist[i] == puts[i - |a.hist|];
    }
  }

  /** After a reset and any `ops`, the next read gives record `k` of the snapshot, `k` being the number
      already replayed, exactly while no more Puts succeeded than there are cells outside the snapshot
      plus `k`. Past that point it gives a record put since the reset. */
  lemma SnapshotRead(q: Ring, a: Abs, ops: seq<Op>) returns (q': Ring, outs: seq<Out>, next: Option<Record>)
    requires Rel(q, a) && OpReset !in ops
    ensures (q', outs) == Run(CrReset(q), ops) && next == Read(q').1 && |outs| == |ops|
    ensures SnapshotNext(Contents(a), Handed(ops, outs, OpRead), Accepted(ops, outs), |q.cells|, next)
  {
    RunRefines(CrReset(q), AbsReset(a), ops);
    ReplayRun(a, AbsReset(a), ops, |q.cells|);
    q', outs := Run(CrReset(q), ops).0, Run(CrReset(q), ops).1;
    var b := AbsRun(AbsReset(a), ops, |q.cells|).0;
    ReadRefines(q', b);
    next := Read(q').1;
    AbsSnapshotRead(a, b, Accepted(ops, outs), Handed(ops, outs, OpRead), |q.cells|);
  }

  /** Replaying a snapshot of `w` records is exact for up to `qsiz + 1 - w` intervening Puts, whatever is
      taken meanwhile. */
  lemma SnapshotReplay(q: Ring, a: Abs, ops: seq<Op>) returns (outs: seq<Out>)
    requires Rel(q, a) && OpReset !in ops
    ensures outs == Run(CrReset(q), ops).1 && |outs| == |ops|
    ensures |Accepted(ops, outs)| <= |q.cells| - |Contents(a)| ==> Handed(ops, outs, OpRead) <= Contents(a)
  {
    outs := Run(CrReset(q), ops).1;
    ResetRefines(q, a);
    RunRefines(CrReset(q), AbsReset(a), ops);
    AbsSnapshotReplay(a, ops, |q.cells|);
  }

  lemma AbsSnapshotReplay(a: Abs, ops: seq<Op>, qnum: nat)
    requires AbsOk(a, qnum) && OpReset !in ops
    ensures |AbsRun(AbsReset(a), ops, qnum).1| == |ops|
    ensures var outs := AbsRun(AbsReset(a), ops, qnum).1;
            |Accepted(ops, outs)| <= qnum - |Contents(a)| ==> Handed(ops, outs, OpRead) <= Contents(a)
  {
    ReplayRun(a, AbsReset(a), ops, qnum);
  }

  // ---------------------------------------------------------------- the backup file

  function Bytes(rs: seq<Record>): seq<bv8> {
    if rs == [] then [] else rs[0] + Bytes(rs[1..])
  }

  /** The whole records of a file; a short tail is dropped. */
  function Records(file: seq<bv8>): seq<Record> {
    if |file| < RECORD_SIZE then [] else [file[..RECORD_SIZE]] + Records(file[RECORD_SIZE..])
  }

  lemma {:induction false} RecordsOfBytes(rs: seq<Record>, tail: seq<bv8>)
    requires |tail| < RECORD_SIZE
    ensures Records(Bytes(rs) + tail) == rs
  {
    if rs == [] {
      assert Bytes(rs) + tail == tail;
    } else {
      var f := Bytes(rs) + tail;
      assert f == rs[0] + (Bytes(rs[1..]) + tail);
      assert f[..RECORD_SIZE] == rs[0] && f[RECORD_SIZE..] == Bytes(rs[1..]) + tail;
      RecordsOfBytes(rs[1..], tail);
    }
  }

  /** Every record takes 204804 bytes of the file. */
  lemma {:induction false} BytesLength(rs: seq<Record>)
    ensures |Bytes(rs)| == 204804 * |rs|
  {
    if rs != [] {
      BytesLength(rs[1..]);
    }
  }

  function Unread(q: Ring): nat {
    if q.cfront <= q.crear then q.crear - q.cfront else q.crear + |q.cells| - q.cfront
  }

  /** The write loop of fipc_SQSaveQ: read the snapshot to its end. */
  function Drain(q: Ring): (r: (Ring, seq<Record>))
    decreases Unread(q)
  {
    WrapStep(q.cfront, |q.cells|);
    if IsAllRead(q) then (q, [])
    else
      var (p, x) := Read(q);
      var (p', xs) := Drain(p);
      (p', [x.value] + xs)
  }

  lemma DrainFirst(q: Ring)
    requires !IsAllRead(q)
    ensures Read(q).1 == Some(q.cells[q.cfront]) && Unread(Read(q).0) < Unread(q)
    ensures Drain(q) == (Drain(Read(q).0).0, [q.cells[q.cfront]] + Drain(Read(q).0).1)
  {
    WrapStep(q.cfront, |q.cells|);
  }

  lemma DrainStep(q: Ring)
    requires !IsAllRead(q)
    ensures Read(q).1 == Some(q.cells[q.cfront]) && Unread(Read(q).0) < Unread(q)
    ensures Drain(q).0 == Drain(Read(q).0).0
    ensures Bytes(Drain(q).1) == q.cells[q.cfront] + Bytes(Drain(Read(q).0).1)
  {
    DrainFirst(q);
    BytesFirst(q.cells[q.cfront], Drain(Read(q).0).1);
  }

  lemma BytesFirst(r: Record, rs: seq<Record>)
    ensures Bytes([r] + rs) == r + Bytes(rs)
  {
    assert ([r] + rs)[1..] == rs;
  }

  lemma {:induction false} DrainGivesSnapshot(q: Ring, a: Abs)
    requires Rel(q, a) && |a.hist| <= a.cgot + |q.cells|
    ensures Drain(q) == (q.(cfront := q.crear, cwidth := 0), a.hist[a.cgot..a.cend])
    decreases a.cend - a.cgot
  {
    CursorAhead(q.cfront, a.cgot, q.crear, a.cend, |q.cells|);
    if a.cgot < a.cend {
      ReadRefines(q, a);
      var p, b := Read(q).0, AbsRead(a, |q.cells|).0;
      assert b == a.(cgot := a.cgot + 1) && Read(q).1 == Some(a.hist[a.cgot]);
      DrainGivesSnapshot(p, b);
      SliceNext(a.hist, a.cgot, a.cend);
    }
  }

  lemma SliceNext<T>(s: seq<T>, i: nat, j: nat)
    requires i < j <= |s|
    ensures s[i..j] == [s[i]] + s[i + 1..j]
  {
  }

  /** The load loop: put every record, ignoring a full queue. */
  function PutAll(q: Ring, rs: seq<Record>): (r: Ring)
    decreases |rs|
  {
    if rs == [] then q else PutAll(Put(q, rs[0]).0, rs[1..])
  }

  lemma TakeNext<T>(c: seq<T>, rs: seq<T>, room: nat)
    requires rs != []
    ensures room > 0 ==> c + [rs[0]] + rs[1..][..Min(|rs| - 1, room - 1)] == c + rs[..Min(|rs|, room)]
    ensures room == 0 ==> c + rs[1..][..Min(|rs| - 1, room)] == c + rs[..Min(|rs|, room)]
  {
  }

  lemma AbsPutAppends(a: Abs, x: Record, qnum: nat)
    requires AbsOk(a, qnum)
    ensures Contents(AbsPut(a, x, qnum).0) == if |Contents(a)| < qnum - 1 then Contents(a) + [x] else Contents(a)
  {
  }

  lemma PutAllPeel(q: Ring, rs: seq<Record>, n: nat, goal: nat)
    requires n < goal <= |rs|
    ensures PutAll(q, rs[n..goal]) == PutAll(Put(q, rs[n]).0, rs[n + 1..goal])
  {
    assert rs[n..goal][1..] == rs[n + 1..goal];
  }

  function AbsPutAll(a: Abs, rs: seq<Record>, qnum: nat): (b: Abs)
    requires AbsOk(a, qnum)
    ensures AbsOk(b, qnum)
    decreases |rs|
  {
    if rs == [] then a else AbsPutAll(AbsPut(a, rs[0], qnum).0, rs[1..], qnum)
  }

  lemma {:induction false} PutAllRefines(q: Ring, a: Abs, rs: seq<Record>)
    requires Rel(q, a)
    ensures Rel(PutAll(q, rs), AbsPutAll(a, rs, |q.cells|))
    decreases |rs|
  {
    if rs != [] {
      PutRefines(q, a, rs[0]);
      PutAllRefines(Put(q, rs[0]).0, AbsPut(a, rs[0], |q.cells|).0, rs[1..]);
    }
  }

  /** Loading appends the first records that fit and drops the rest. */
  lemma {:induction false} PutAllAppends(a: Abs, rs: seq<Record>, qnum: nat)
    requires AbsOk(a, qnum)
    ensures Contents(AbsPutAll(a, rs, qnum)) == Contents(a) + rs[..Min(|rs|, qnum - 1 - |Contents(a)|)]
    decreases |rs|
  {
    if rs == [] {
      assert Contents(a) + rs == Contents(a);
    } else {
      AbsPutAppends(a, rs[0], qnum);
      TakeNext(Contents(a), rs, qnum - 1 - |Contents(a)|);
      PutAllAppends(AbsPut(a, rs[0], qnum).0, rs[1..], qnum);
    }
  }

  /** Saving writes exactly the contents and leaves the queue itself as it is. */
  lemma SaveWritesContents(q: Ring, a: Abs)
    requires Rel(q, a)
    ensures Drain(CrReset(q)) == (q.(crear := q.rear, cfront := q.rear, cwidth := 0), Contents(a))
  {
    DrainGivesSnapshot(CrReset(q), AbsReset(a));
    assert a.hist[a.got..|a.hist|] == Contents(a);
  }

  /** Loading a saved file, even with a torn record at its end, into a new queue restores the saved
      contents, or their first records when the new queue is smaller. */
  lemma LoadRestores(saved: seq<Record>, tail: seq<bv8>, qsiz: nat, file: seq<bv8>, fresh_: Ring) returns (b: Abs)
    requires |tail| < RECORD_SIZE && file == Bytes(saved) + tail && fresh_ == Init(qsiz)
    ensures Rel(PutAll(fresh_, Records(file)), b) && Contents(b) == saved[..Min(|saved|, qsiz)]
  {
    RecordsOfBytes(saved, tail);
    InitRefines(qsiz);
    PutAllRefines(fresh_, NEW_QUEUE, saved);
    PutAllAppends(NEW_QUEUE, saved, qsiz + 1);
    b := AbsPutAll(NEW_QUEUE, saved, qsiz + 1);
  }

  /** Saving a queue, starting over and loading gives the queue back, or its first `qsiz` records. */
  lemma SaveInitLoad(q: Ring, a: Abs, qsiz: nat, fresh_: Ring) returns (file: seq<bv8>, b: Abs)
    requires Rel(q, a) && fresh_ == Init(qsiz)
    ensures file == Bytes(Drain(CrReset(q)).1) && Rel(PutAll(fresh_, Records(file)), b)
    ensures Contents(b) == Contents(a)[..Min(|Contents(a)|, qsiz)]
  {
    SaveWritesContents(q, a);
    file := Bytes(Contents(a));
    assert file + [] == file;
    b := LoadRestores(Contents(a), [], qsiz, file, fresh_);
  }

  // ---------------------------------------------------------------- the queue as globals over an array

  class SQueue {
    var data: array?<Record>
    var qnum: nat
    var front: nat
    var rear: nat
    var width: int
    var cfront: nat
    var crear: nat
    var cwidth: int
    var backpath: string
    var backup: Option<seq<bv8>>   // the backup file on disk, when there is one

    ghost predicate Valid()
      reads this, data
    {
      data != null ==> data.Length == qnum && Shape(Value())
    }

    ghost function Value(): Globals
      requires data != null
      reads this, data
    {
      Globals(data[..], front, rear, width, cfront, crear, cwidth)
    }

    constructor ()
      ensures Valid() && data == null && backpath == "" && backup == None
    {
      data, qnum, front, rear, width, cfront, crear, cwidth := null, 0, 0, 0, 0, 0, 0, 0;
      backpath, backup := "", None;
    }

    /** fipc_SQInit; `gotMemory` says whether calloc found memory. */
    method SQInit(qsiz: nat, path: string, gotMemory: bool) returns (rc: int)
      modifies this
      ensures Valid() && backpath == path && backup == old(backup)
      ensures rc == (if gotMemory then 0 else -1) && (data == null <==> !gotMemory)
      ensures gotMemory ==> fresh(data) && Value() == Init(qsiz)
    {
      rear, front, width := 0, 0, 0;
      crear, cfront, cwidth := 0, 0, 0;
      backpath := path;
      qnum := qsiz + 1;
      data := null;
      if !gotMemory {
        return -1;
      }
      data := new Record[qnum](_ => Blank());
      assert data[..] == Init(qsiz).cells;
      return 0;
    }

    method SQPut(x: Record) returns (rc: int)
      requires Valid()
      modifies this`rear, this`width, data
      ensures Valid()
      ensures data == null ==> rc == -2 && rear == old(rear) && width == old(width)
      ensures data != null ==> (Value(), rc) == Put(old(Value()), x)
      ensures data != null ==> rc == if old(front) == (old(rear) + 1) % qnum then -1 else 0
    {
      if data == null {
        return -2;
      }
      if front != (rear + 1) % qnum {
        data[rear] := x;
        rear := rear + 1;
        rear := rear % qnum;
        width := width + 1;
        return 0;
      } else {
        return -1;
      }
    }

    method SQGet() returns (x: Option<Record>)
      requires Valid()
      modifies this`front, this`width
      ensures Valid()
      ensures data == null ==> x == None && front == old(front) && width == old(width)
      ensures data != null ==> (Value(), x) == Get(old(Value()))
      ensures data != null ==> x == if old(front) == rear then None else Some(data[old(front)])
    {
      var tmp := front;
      if data == null {
        return None;
      }
      if front != rear {
        front := front + 1;
        front := front % qnum;
        x := Some(data[tmp]);
        width := width - 1;
      } else {
        x := None;
      }
    }

    method SQRead() returns (x: Option<Record>)
      requires Valid()
      modifies this`cfront, this`cwidth
      ensures Valid()
      ensures data == null ==> x == None && cfront == old(cfront) && cwidth == old(cwidth)
      ensures data != null ==> (Value(), x) == Read(old(Value()))
      ensures data != null ==> x == if old(cfront) == crear then None else Some(data[old(cfront)])
    {
      var tmp := cfront;
      if data == null {
        return None;
      }
      if cfront != crear {
        cfront := cfront + 1;
        cfront := cfront % qnum;
        x := Some(data[tmp]);
        cwidth := cwidth - 1;
      } else {
        x := None;
      }
    }

    method SQCrReset()
      requires Valid()
      modifies this`crear, this`cfront, this`cwidth
      ensures Valid() && crear == rear && cfront == front && cwidth == width
      ensures data != null ==> Value() == CrReset(old(Value()))
    {
      crear := rear;
      cfront := front;
      cwidth := width;
    }

    /** fipc_SQSaveQ; `canOpen` says whether the file can be opened for writing. */
    method SQSaveQ(canOpen: bool) returns (rc: int)
      requires Valid()
      modifies this`crear, this`cfront, this`cwidth, this`backup
      ensures Valid()
      ensures rc == if backpath == "" then -1 else if data == null then -2 else if !canOpen then -3 else 0
      ensures rc != 0 ==> backup == old(backup) && crear == rear && cfront == front && cwidth == width
      ensures rc == 0 ==> Value() == Drain(CrReset(old(Value()))).0
      ensures rc == 0 ==> backup == Some(Bytes(Drain(CrReset(old(Value()))).1))
    {
      SQCrReset();
      if backpath == "" {
        return -1;
      }
      if data == null {
        return -2;
      }
      if !canOpen {
        return -3;
      }
      ghost var (end, saved) := Drain(Value());
      var file := [];
      while cfront != crear
        invariant Valid() && data == old(data) && data[..] == old(data[..])
        invariant Drain(Value()).0 == end && file + Bytes(Drain(Value()).1) == Bytes(saved)
        decreases Unread(Value())
      {
        DrainStep(Value());
        Assoc(file, data[cfront], Bytes(Drain(Read(Value()).0).1));
        var tbuf := SQRead();
        file := file + tbuf.value;
      }
      assert file + [] == file;
      backup := Some(file);
      return 0;
    }

    /** fipc_SQLoadQ; `fault` is the number of the fread call that reports an error, if one does. Without
        an array the records are read and dropped. */
    method SQLoadQ(fault: Option<nat>) returns (rc: int)
      requires Valid()
      modifies this`rear, this`width, data
      ensures Valid()
      ensures rc == if backpath == "" then -1 else if backup == None then -2
                    else if fault.Some? && fault.value <= |Records(backup.value)| then -3 else 0
      ensures data == null ==> rear == old(rear) && width == old(width)
      ensures data != null && (rc == -1 || rc == -2) ==> Value() == old(Value())
      ensures data != null && rc == 0 ==> Value() == PutAll(old(Value()), Records(backup.value))
      ensures data != null && rc == -3 ==> Value() == PutAll(old(Value()), Records(backup.value)[..fault.value])
    {
      if backpath == "" {
        return -1;
      }
      if backup == None {
        return -2;
      }
      var rest, n := backup.value, 0;
      ghost var all := Records(rest);
      ghost var goal := if fault.Some? && fault.value <= |all| then fault.value else |all|;
      while fault != Some(n) && |rest| >= RECORD_SIZE
        invariant Valid() && data == old(data)
        invariant n <= goal && Records(rest) == all[n..]
        invariant data == null ==> rear == old(rear) && width == old(width)
        invariant data != null ==> PutAll(old(Value()), all[..goal]) == PutAll(Value(), all[n..goal])
        decreases goal - n
      {
        assert all[n..][1..] == all[n + 1..];
        ghost var x, before := all[n], if data != null then Value() else Init(0);
        assert rest[..RECORD_SIZE] == x;
        PutAllPeel(before, all, n, goal);
        var ignored := SQPut(rest[..RECORD_SIZE]);
        assert data != null ==> Value() == Put(before, x).0;
        rest, n := rest[RECORD_SIZE..], n + 1;
      }
      assert n == goal && all[n..goal] == [] && all[..|all|] == all;
      return if fault == Some(n) then -3 else 0;
    }
  }

  /** The shutdown and restart of a queue: save, Init with the same path, load. */
  method Restart(s: SQueue, qsiz: nat, ghost a: Abs) returns (ghost b: Abs)
    requires s.Valid() && s.data != null && s.backpath != "" && Rel(s.Value(), a)
    modifies s, s.data
    ensures s.Valid() && s.data != null && Rel(s.Value(), b)
    ensures Contents(b) == Contents(a)[..Min(|Contents(a)|, qsiz)]
  {
    ghost var file;
    file, b := SaveInitLoad(s.Value(), a, qsiz, Init(qsiz));
    var saved := s.SQSaveQ(true);
    var started := s.SQInit(qsiz, s.backpath, true);
    var loaded := s.SQLoadQ(None);
  }
}
