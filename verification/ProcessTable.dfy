/** The process table of lib_src/linuxke/dap_linux.c: an open-addressing hash table with linear
    probing that one directory scan marks, fills in place and flushes without tombstones.

    The scan is a fold of `Step` over the entries that readdir and read_one_proc_stat produced;
    the class at the end is the same scan as loops over the global arrays. */
module ProcessTable {
  const NR_TASKS: nat := 4000
  const HASH_SIZE: nat := 6000
  const NPROCSTATES: nat := 7
  const EMPTY: int := -1

  /** The fields of `struct top_proc` that the scan reads. */
  datatype TopProc = TopProc(pid: int, uid: int, state: nat, time: nat, pcpu: real)

  /** What read_one_proc_stat meets under /proc: no command line, an empty stat file, or a stat line. */
  datatype StatRead =
    | Unreadable
    | OwnerOnly(uid: int)
    | Parsed(owner: int, letter: char, ticks: nat)

  datatype DirEntry = DirEntry(pid: nat, stat: StatRead)

  datatype Select = Select(idle: bool, uid: int)

  datatype ScanState = ScanState(table: seq<TopProc>, total: nat, states: seq<nat>, active: seq<nat>)

  // ---------------------------------------------------------------- reading one process

  function StateOf(letter: char, before: nat): nat {
    match letter
    case 'R' => 1
    case 'S' => 2
    case 'D' => 3
    case 'Z' => 4
    case 'T' => 5
    case 'W' => 6
    case _ => before
  }

  function ReadStat(p: TopProc, r: StatRead): TopProc {
    match r
    case Unreadable => p
    case OwnerOnly(uid) => p.(uid := uid)
    case Parsed(uid, letter, ticks) => p.(uid := uid, state := StateOf(letter, p.state), time := ticks)
  }

  /** A process shows in a scan when its stat line carries one of the six known state letters. */
  predicate Visible(e: DirEntry) {
    e.stat.Parsed? && StateOf(e.stat.letter, 0) != 0
  }

  function VisibleCount(es: seq<DirEntry>): nat {
    if es == [] then 0 else (if Visible(es[0]) then 1 else 0) + VisibleCount(es[1..])
  }

  /** The slot content that reading `e` must leave behind. */
  predicate Records(p: TopProc, e: DirEntry) {
    Visible(e) && p.pid == e.pid && p.state == StateOf(e.stat.letter, 0) && p.uid == e.stat.owner && p.time == e.stat.ticks
  }

  ghost predicate Distinct(es: seq<DirEntry>) {
    forall i, j :: 0 <= i < j < |es| ==> es[i].pid != es[j].pid
  }

  // ---------------------------------------------------------------- counting slots

  datatype Kind = Occupied | Seen | InState(k: nat) | Passing(sel: Select)

  predicate Is(kind: Kind, p: TopProc) {
    match kind
    case Occupied => p.pid != EMPTY
    case Seen => p.state != 0
    case InState(k) => p.state == k
    case Passing(sel) => p.state != 0 && Passes(p, sel)
  }

  function Count(t: seq<TopProc>, kind: Kind): nat {
    if t == [] then 0 else (if Is(kind, t[0]) then 1 else 0) + Count(t[1..], kind)
  }

  lemma {:induction false} CountUpdate(t: seq<TopProc>, s: nat, p: TopProc, kind: Kind)
    requires s < |t|
    ensures Count(t[s := p], kind) + (if Is(kind, t[s]) then 1 else 0)
         == Count(t, kind) + (if Is(kind, p) then 1 else 0)
  {
    if s == 0 {
      assert t[s := p][1..] == t[1..];
    } else {
      assert t[s := p][1..] == t[1..][s - 1 := p];
      CountUpdate(t[1..], s - 1, p, kind);
    }
  }

  lemma {:induction false} CountFull(t: seq<TopProc>)
    requires forall s :: 0 <= s < |t| ==> t[s].pid != EMPTY
    ensures Count(t, Occupied) == |t|
  {
    if t != [] {
      CountFull(t[1..]);
    }
  }

  /** Two tables whose slots agree on two kinds have the same two counts. */
  lemma {:induction false} CountAgree(t: seq<TopProc>, k1: Kind, u: seq<TopProc>, k2: Kind)
    requires |t| == |u|
    requires forall s :: 0 <= s < |t| ==> Is(k1, t[s]) == Is(k2, u[s])
    ensures Count(t, k1) == Count(u, k2)
  {
    if t != [] {
      CountAgree(t[1..], k1, u[1..], k2);
    }
  }

  // ---------------------------------------------------------------- probing

  ghost predicate TableOk(t: seq<TopProc>) {
    && |t| == HASH_SIZE
    && forall s :: 0 <= s < HASH_SIZE ==> t[s].state < NPROCSTATES && (t[s].pid == EMPTY ==> t[s].state == 0)
  }

  /** The HASH macro: a 32-bit unsigned product, reduced to a slot. */
  function Hash(pid: nat): (h: nat)
    ensures h < HASH_SIZE
  {
    (pid * 1686629713) % 0x1_0000_0000 % HASH_SIZE
  }

  /** The slot at wraparound distance `d` from the hash of `pid`. */
  function SlotAt(pid: nat, d: nat): (s: nat)
    requires d < HASH_SIZE
    ensures s < HASH_SIZE
  {
    if Hash(pid) + d < HASH_SIZE then Hash(pid) + d else Hash(pid) + d - HASH_SIZE
  }

  function Distance(pid: nat, s: nat): (d: nat)
    requires s < HASH_SIZE
    ensures d < HASH_SIZE && SlotAt(pid, d) == s
  {
    if Hash(pid) <= s then s - Hash(pid) else s + HASH_SIZE - Hash(pid)
  }

  predicate Stops(t: seq<TopProc>, pid: nat, s: nat)
    requires s < |t|
  {
    t[s].pid == pid || t[s].pid == EMPTY
  }

  /** A probe for `pid` halts exactly when some slot is empty or holds `pid`. */
  ghost predicate Halts(t: seq<TopProc>, pid: nat)
    requires |t| == HASH_SIZE
  {
    exists s :: 0 <= s < HASH_SIZE && Stops(t, pid, s)
  }

  ghost predicate PassedOver(t: seq<TopProc>, pid: nat, d: nat)
    requires |t| == HASH_SIZE && d <= HASH_SIZE
  {
    forall e :: 0 <= e < d ==> !Stops(t, pid, SlotAt(pid, e))
  }

  /** While a stopping slot is still ahead, passing over a slot leaves another one to look at. */
  lemma MoreToProbe(t: seq<TopProc>, pid: nat, d: nat)
    requires |t| == HASH_SIZE && d < HASH_SIZE && Halts(t, pid) && PassedOver(t, pid, d)
    requires !Stops(t, pid, SlotAt(pid, d))
    ensures d + 1 < HASH_SIZE
  {
    var s :| 0 <= s < HASH_SIZE && Stops(t, pid, s);
    assert SlotAt(pid, Distance(pid, s)) == s;
  }

  ghost function ProbeFrom(t: seq<TopProc>, pid: nat, d: nat): (s: nat)
    requires |t| == HASH_SIZE && d < HASH_SIZE && Halts(t, pid) && PassedOver(t, pid, d)
    ensures s < HASH_SIZE && Stops(t, pid, s) && PassedOver(t, pid, Distance(pid, s))
    decreases HASH_SIZE - d
  {
    if Stops(t, pid, SlotAt(pid, d)) then
      SlotAt(pid, d)
    else
      MoreToProbe(t, pid, d);
      ProbeFrom(t, pid, d + 1)
  }

  /** The slot the probe loop settles on. */
  ghost function Probe(t: seq<TopProc>, pid: nat): (s: nat)
    requires |t| == HASH_SIZE && Halts(t, pid)
    ensures s < HASH_SIZE && Stops(t, pid, s)
  {
    ProbeFrom(t, pid, 0)
  }

  /** The probe answer is the cyclically first stopping slot, and the only one. */
  lemma ProbeIsFirst(t: seq<TopProc>, pid: nat, s: nat)
    requires |t| == HASH_SIZE && Halts(t, pid) && s < HASH_SIZE
    ensures s == Probe(t, pid) <==> Stops(t, pid, s) && PassedOver(t, pid, Distance(pid, s))
  {
    var p := Probe(t, pid);
    assert SlotAt(pid, Distance(pid, s)) == s && SlotAt(pid, Distance(pid, p)) == p;
  }

  /** A table with fewer occupied slots than slots always lets a probe halt. */
  lemma RoomHalts(t: seq<TopProc>, pid: nat)
    requires |t| == HASH_SIZE && Count(t, Occupied) < HASH_SIZE
    ensures Halts(t, pid)
  {
    if forall s :: 0 <= s < HASH_SIZE ==> t[s].pid != EMPTY {
      CountFull(t);
    } else {
      var s :| 0 <= s < HASH_SIZE && t[s].pid == EMPTY;
      assert Stops(t, pid, s);
    }
  }

  /** A table with an empty slot is not full. */
  lemma {:induction false} CountGap(t: seq<TopProc>, s: nat)
    requires s < |t| && t[s].pid == EMPTY
    ensures Count(t, Occupied) < |t|
  {
    CountBound(t[1..]);
    if s > 0 {
      CountGap(t[1..], s - 1);
    }
  }

  lemma {:induction false} CountBound(t: seq<TopProc>)
    ensures Count(t, Occupied) <= |t|
  {
    if t != [] {
      CountBound(t[1..]);
    }
  }

  /** A probe halts exactly when the table has an empty slot or holds the pid; otherwise it passes over every
      slot and goes round for ever. */
  lemma HaltsExactly(t: seq<TopProc>, pid: nat)
    requires |t| == HASH_SIZE
    ensures Halts(t, pid) <==> Count(t, Occupied) < HASH_SIZE || exists s :: 0 <= s < HASH_SIZE && t[s].pid == pid
    ensures !Halts(t, pid) <==> PassedOver(t, pid, HASH_SIZE)
  {
    if Halts(t, pid) {
      var s :| 0 <= s < HASH_SIZE && Stops(t, pid, s);
      assert SlotAt(pid, Distance(pid, s)) == s;
      if t[s].pid == EMPTY {
        CountGap(t, s);
      }
    } else {
      if Count(t, Occupied) < HASH_SIZE {
        RoomHalts(t, pid);
      }
      forall s | 0 <= s < HASH_SIZE
        ensures t[s].pid != pid
      {
        assert !Stops(t, pid, s);
      }
    }
  }

  /** Slot `s` alone holds the pid. */
  ghost predicate Alone(t: seq<TopProc>, pid: nat, s: nat) {
    |t| == HASH_SIZE && s < HASH_SIZE && t[s].pid == pid && forall r :: 0 <= r < HASH_SIZE && t[r].pid == pid ==> r == s
  }

  /** A live pid in one slot only is found again, with its CPU history, exactly when no empty slot
      lies between its hash and that slot. A flush can open such a gap, and then the pid is inserted
      a second time as if it were new. */
  lemma FoundAgain(t: seq<TopProc>, pid: nat, s: nat)
    requires Alone(t, pid, s)
    ensures Halts(t, pid)
    ensures Probe(t, pid) == s <==> forall e :: 0 <= e < Distance(pid, s) ==> t[SlotAt(pid, e)].pid != EMPTY
  {
    assert Stops(t, pid, s);
    ProbeIsFirst(t, pid, s);
    forall e | 0 <= e < Distance(pid, s)
      ensures t[SlotAt(pid, e)].pid != pid
    {
    }
    if forall e :: 0 <= e < Distance(pid, s) ==> t[SlotAt(pid, e)].pid != EMPTY {
      assert PassedOver(t, pid, Distance(pid, s));
    } else {
      var e :| 0 <= e < Distance(pid, s) && t[SlotAt(pid, e)].pid == EMPTY;
      assert Stops(t, pid, SlotAt(pid, e));
    }
  }

  // ---------------------------------------------------------------- one step of a scan

  /** The record left in slot `s`: counters against the old tick count, or a fresh start. */
  function Charged(old_: TopProc, e: DirEntry, dt: real): TopProc
    requires dt > 0.0
  {
    var p := ReadStat(old_, e.stat);
    if p.state == 0 then p
    else if p.pid == EMPTY then p.(pid := e.pid, pcpu := p.time as real / dt)
    else p.(pcpu := ((p.time - old_.time) % 0x1_0000_0000_0000_0000) as real / dt)
  }

  predicate Passes(p: TopProc, sel: Select) {
    (sel.idle || p.state == 1 || p.pcpu != 0.0) && (sel.uid == -1 || p.uid == sel.uid)
  }

  ghost predicate StateOk(st: ScanState) {
    TableOk(st.table) && |st.states| == NPROCSTATES
  }

  ghost function Step(st: ScanState, e: DirEntry, sel: Select, dt: real): (r: ScanState)
    requires StateOk(st) && Halts(st.table, e.pid) && dt > 0.0
    ensures StateOk(r)
  {
    var s := Probe(st.table, e.pid);
    var p := Charged(st.table[s], e, dt);
    if p.state == 0 then
      st.(table := st.table[s := p])
    else
      ScanState(st.table[s := p], st.total + 1, st.states[p.state := st.states[p.state] + 1],
                if Passes(p, sel) then st.active + [s] else st.active)
  }

  /** Only a visible process can take an empty slot. */
  lemma StepRoom(st: ScanState, e: DirEntry, sel: Select, dt: real)
    requires StateOk(st) && Halts(st.table, e.pid) && dt > 0.0
    ensures Count(Step(st, e, sel, dt).table, Occupied) <= Count(st.table, Occupied) + (if Visible(e) then 1 else 0)
  {
    var s := Probe(st.table, e.pid);
    CountUpdate(st.table, s, Charged(st.table[s], e, dt), Occupied);
  }

  /** Every probe of a scan halts, each on the table that the ones before it left. */
  ghost predicate AllHalt(st: ScanState, es: seq<DirEntry>, sel: Select, dt: real)
    requires StateOk(st) && dt > 0.0
    decreases |es|
  {
    es != [] ==> Halts(st.table, es[0].pid) && AllHalt(Step(st, es[0], sel, dt), es[1..], sel, dt)
  }

  ghost function ScanFrom(st: ScanState, es: seq<DirEntry>, sel: Select, dt: real): (r: ScanState)
    requires StateOk(st) && dt > 0.0 && AllHalt(st, es, sel, dt)
    ensures StateOk(r)
    decreases |es|
  {
    if es == [] then st else ScanFrom(Step(st, es[0], sel, dt), es[1..], sel, dt)
  }

  ghost predicate Knows(t: seq<TopProc>, pid: nat) {
    exists s :: 0 <= s < |t| && t[s].pid == pid
  }

  /** A step takes no pid out of the table. */
  lemma StepKnows(st: ScanState, e: DirEntry, sel: Select, dt: real, pid: nat)
    requires StateOk(st) && Halts(st.table, e.pid) && dt > 0.0 && Knows(st.table, pid)
    ensures Knows(Step(st, e, sel, dt).table, pid)
  {
    var s :| 0 <= s < |st.table| && st.table[s].pid == pid;
    assert Step(st, e, sel, dt).table[s].pid == pid;
  }

  /** Every probe halts when each pid read is in the table or there is room for the processes read before it;
      so a scan that reads only pids of the table halts however full the table is. */
  lemma {:induction false} KnownOrRoom(st: ScanState, es: seq<DirEntry>, sel: Select, dt: real)
    requires StateOk(st) && dt > 0.0
    requires forall k :: 0 <= k < |es| ==>
               Knows(st.table, es[k].pid) || Count(st.table, Occupied) + VisibleCount(es[..k]) < HASH_SIZE
    ensures AllHalt(st, es, sel, dt)
    decreases |es|
  {
    if es != [] {
      var e, rest := es[0], es[1..];
      HaltsExactly(st.table, e.pid);
      assert es[..0] == [];
      StepRoom(st, e, sel, dt);
      var next := Step(st, e, sel, dt);
      forall k | 0 <= k < |rest|
        ensures Knows(next.table, rest[k].pid) || Count(next.table, Occupied) + VisibleCount(rest[..k]) < HASH_SIZE
      {
        assert rest[k] == es[k + 1] && es[..k + 1][1..] == rest[..k] && es[..k + 1][0] == e;
        if Knows(st.table, rest[k].pid) {
          StepKnows(st, e, sel, dt, rest[k].pid);
        }
      }
      KnownOrRoom(next, rest, sel, dt);
    }
  }

  /** Room for every process read is more than enough. */
  lemma RoomAllHalts(st: ScanState, es: seq<DirEntry>, sel: Select, dt: real)
    requires StateOk(st) && dt > 0.0 && Count(st.table, Occupied) + VisibleCount(es) < HASH_SIZE
    ensures AllHalt(st, es, sel, dt)
  {
    forall k | 0 <= k < |es|
      ensures VisibleCount(es[..k]) <= VisibleCount(es)
    {
      VisiblePart(es, k);
    }
    KnownOrRoom(st, es, sel, dt);
  }

  lemma {:induction false} VisiblePart(es: seq<DirEntry>, k: nat)
    requires k <= |es|
    ensures VisibleCount(es[..k]) <= VisibleCount(es)
  {
    if k > 0 {
      assert es[..k][1..] == es[1..][..k - 1];
      VisiblePart(es[1..], k - 1);
    }
  }

  // ---------------------------------------------------------------- what holds in the middle of a scan

  /** `p` holds what one of the entries `done` read. */
  predicate Backed(p: TopProc, done: seq<DirEntry>) {
    done != [] && (Records(p, done[|done| - 1]) || Backed(p, done[..|done| - 1]))
  }

  ghost predicate Shown(t: seq<TopProc>, e: DirEntry) {
    exists s :: 0 <= s < |t| && Records(t[s], e)
  }

  /** Slots with a state are exactly the visible processes read so far, once each. Slots whose state
      is still 0 may hold anything left over, even a second copy of a pid already placed. */
  ghost predicate Placed(t: seq<TopProc>, done: seq<DirEntry>) {
    && (forall s :: 0 <= s < |t| && t[s].state != 0 ==> Backed(t[s], done))
    && (forall k :: 0 <= k < |done| && Visible(done[k]) ==> Shown(t, done[k]))
    && (forall s, r :: 0 <= s < r < |t| && t[s].state != 0 && t[r].state != 0 ==> t[s].pid != t[r].pid)
  }

  lemma {:induction false} BackedPid(p: TopProc, done: seq<DirEntry>) returns (k: nat)
    requires Backed(p, done)
    ensures k < |done| && Records(p, done[k])
  {
    if Records(p, done[|done| - 1]) {
      k := |done| - 1;
    } else {
      k := BackedPid(p, done[..|done| - 1]);
    }
  }

  function Sum(xs: seq<nat>): nat {
    if xs == [] then 0 else xs[0] + Sum(xs[1..])
  }

  lemma {:induction false} SumUpdate(xs: seq<nat>, i: nat, x: nat)
    requires i < |xs|
    ensures Sum(xs[i := x]) + xs[i] == Sum(xs) + x
  {
    if i == 0 {
      assert xs[i := x][1..] == xs[1..];
    } else {
      assert xs[i := x][1..] == xs[1..][i - 1 := x];
      SumUpdate(xs[1..], i - 1, x);
    }
  }

  /** The three tallies of a scan agree with the table. */
  ghost predicate Tallied(st: ScanState) {
    && |st.states| == NPROCSTATES
    && st.total == Count(st.table, Seen) == Sum(st.states)
    && forall k :: 1 <= k < NPROCSTATES ==> st.states[k] == Count(st.table, InState(k))
  }

  predicate Has(xs: seq<nat>, s: nat) {
    xs != [] && (xs[|xs| - 1] == s || Has(xs[..|xs| - 1], s))
  }

  predicate NoRepeats(xs: seq<nat>) {
    xs != [] ==> !Has(xs[..|xs| - 1], xs[|xs| - 1]) && NoRepeats(xs[..|xs| - 1])
  }

  /** The active list names exactly the seen slots that pass the selection, each once. */
  ghost predicate Listed(t: seq<TopProc>, active: seq<nat>, sel: Select) {
    NoRepeats(active) && forall s: nat :: Has(active, s) <==> s < |t| && t[s].state != 0 && Passes(t[s], sel)
  }

  ghost predicate Fresh(done: seq<DirEntry>, pid: nat) {
    forall k :: 0 <= k < |done| ==> done[k].pid != pid
  }

  /** A pid not read before in this scan settles on a slot that carries no state yet. */
  lemma ProbedSlotUnseen(t: seq<TopProc>, done: seq<DirEntry>, e: DirEntry)
    requires TableOk(t) && Placed(t, done) && Halts(t, e.pid)
    requires Fresh(done, e.pid)
    ensures t[Probe(t, e.pid)].state == 0
  {
    var p := t[Probe(t, e.pid)];
    if p.state != 0 {
      var k := BackedPid(p, done);
    }
  }

  lemma StepPlaced(st: ScanState, done: seq<DirEntry>, e: DirEntry, sel: Select, dt: real)
    requires StateOk(st) && Placed(st.table, done) && Halts(st.table, e.pid) && dt > 0.0
    requires Fresh(done, e.pid)
    ensures Placed(Step(st, e, sel, dt).table, done + [e])
  {
    ProbedSlotUnseen(st.table, done, e);
    var s := Probe(st.table, e.pid);
    WritePlaced(st.table, done, e, s, Charged(st.table[s], e, dt));
  }

  /** Writing a record of `e`, or a record without a state, over a slot without a state. */
  lemma WritePlaced(t: seq<TopProc>, done: seq<DirEntry>, e: DirEntry, s: nat, p: TopProc)
    requires Placed(t, done) && s < |t| && t[s].state == 0
    requires Fresh(done, e.pid)
    requires if Visible(e) then Records(p, e) else p.state == 0
    ensures Placed(t[s := p], done + [e])
  {
    var t' := t[s := p];
    var done' := done + [e];
    assert done'[..|done|] == done;
    forall k | 0 <= k < |done'| && Visible(done'[k])
      ensures Shown(t', done'[k])
    {
      if k == |done| {
        assert Records(t'[s], done'[k]);
      } else {
        var r :| 0 <= r < |t| && Records(t[r], done[k]);
        assert Records(t'[r], done'[k]);
      }
    }
    forall r | 0 <= r < |t| && r != s && t[r].state != 0
      ensures t[r].pid != e.pid
    {
      var k := BackedPid(t[r], done);
    }
  }

  /** Slot `s` alone holds `pid`, and the slot at distance `gap` on the way to it is empty. */
  ghost predicate BehindGap(t: seq<TopProc>, pid: nat, s: nat, gap: nat) {
    Alone(t, pid, s) && gap < Distance(pid, s) && t[SlotAt(pid, gap)].pid == EMPTY
  }

  lemma StepTallied(st: ScanState, e: DirEntry, sel: Select, dt: real)
    requires StateOk(st) && Halts(st.table, e.pid) && dt > 0.0 && Tallied(st)
    requires st.table[Probe(st.table, e.pid)].state == 0
    ensures Tallied(Step(st, e, sel, dt))
    ensures Step(st, e, sel, dt).total == st.total + (if Visible(e) then 1 else 0)
  {
    var s := Probe(st.table, e.pid);
    var p := Charged(st.table[s], e, dt);
    var st' := Step(st, e, sel, dt);
    CountUpdate(st.table, s, p, Seen);
    forall k | 1 <= k < NPROCSTATES
      ensures st'.states[k] == Count(st'.table, InState(k))
    {
      CountUpdate(st.table, s, p, InState(k));
    }
    if p.state != 0 {
      SumUpdate(st.states, p.state, st.states[p.state] + 1);
    }
  }

  lemma StepListed(st: ScanState, e: DirEntry, sel: Select, dt: real)
    requires StateOk(st) && Halts(st.table, e.pid) && dt > 0.0 && Listed(st.table, st.active, sel)
    requires st.table[Probe(st.table, e.pid)].state == 0
    ensures Listed(Step(st, e, sel, dt).table, Step(st, e, sel, dt).active, sel)
  {
    var s := Probe(st.table, e.pid);
    UpdateListed(st.table, st.active, sel, s, Charged(st.table[s], e, dt));
  }

  /** Filling a slot without a state: it is listed when it then passes, and the rest stays listed. */
  lemma UpdateListed(t: seq<TopProc>, active: seq<nat>, sel: Select, s: nat, p: TopProc)
    requires Listed(t, active, sel) && s < |t| && t[s].state == 0
    ensures Listed(t[s := p], if p.state != 0 && Passes(p, sel) then active + [s] else active, sel)
  {
    assert !Has(active, s);
    assert (active + [s])[..|active|] == active;
  }

  /** What holds of a scan after it has read `done`. */
  ghost predicate Midway(st: ScanState, done: seq<DirEntry>, sel: Select) {
    Placed(st.table, done) && Tallied(st) && Listed(st.table, st.active, sel)
  }

  lemma StepMidway(st: ScanState, done: seq<DirEntry>, e: DirEntry, sel: Select, dt: real)
    requires StateOk(st) && Halts(st.table, e.pid) && dt > 0.0 && Midway(st, done, sel) && Fresh(done, e.pid)
    ensures Midway(Step(st, e, sel, dt), done + [e], sel)
    ensures Step(st, e, sel, dt).total == st.total + (if Visible(e) then 1 else 0)
  {
    ProbedSlotUnseen(st.table, done, e);
    StepPlaced(st, done, e, sel, dt);
    StepTallied(st, e, sel, dt);
    StepListed(st, e, sel, dt);
  }

  lemma DistinctFresh(done: seq<DirEntry>, es: seq<DirEntry>)
    requires Distinct(done + es) && es != []
    ensures Fresh(done, es[0].pid) && Distinct(done + [es[0]] + es[1..])
  {
    assert done + [es[0]] + es[1..] == done + es;
    forall k | 0 <= k < |done|
      ensures done[k].pid != es[0].pid
    {
      assert (done + es)[k] == done[k] && (done + es)[|done|] == es[0];
    }
  }

  lemma NextOfScan(st: ScanState, es: seq<DirEntry>, sel: Select, dt: real)
    requires StateOk(st) && dt > 0.0 && AllHalt(st, es, sel, dt) && es != []
    ensures Halts(st.table, es[0].pid)
    ensures var next := Step(st, es[0], sel, dt);
            AllHalt(next, es[1..], sel, dt) && ScanFrom(next, es[1..], sel, dt) == ScanFrom(st, es, sel, dt)
    ensures VisibleCount(es) == (if Visible(es[0]) then 1 else 0) + VisibleCount(es[1..])
  {
  }

  lemma NextMidway(st: ScanState, done: seq<DirEntry>, e: DirEntry, rest: seq<DirEntry>, sel: Select, dt: real)
    requires StateOk(st) && dt > 0.0 && Halts(st.table, e.pid)
    requires Distinct(done + ([e] + rest)) && Midway(st, done, sel)
    ensures (done + [e]) + rest == done + ([e] + rest) && Midway(Step(st, e, sel, dt), done + [e], sel)
    ensures Step(st, e, sel, dt).total == st.total + (if Visible(e) then 1 else 0)
  {
    DistinctFresh(done, [e] + rest);
    StepMidway(st, done, e, sel, dt);
  }

  lemma {:induction false} ScanMidway(st: ScanState, done: seq<DirEntry>, es: seq<DirEntry>, sel: Select, dt: real)
    requires StateOk(st) && dt > 0.0 && AllHalt(st, es, sel, dt)
    requires Distinct(done + es) && Midway(st, done, sel)
    ensures Midway(ScanFrom(st, es, sel, dt), done + es, sel)
    ensures ScanFrom(st, es, sel, dt).total == st.total + VisibleCount(es)
    decreases |es|
  {
    if es == [] {
      assert done + es == done;
    } else {
      var e, rest := es[0], es[1..];
      assert es == [e] + rest;
      NextOfScan(st, es, sel, dt);
      NextMidway(st, done, e, rest, sel, dt);
      ScanMidway(Step(st, e, sel, dt), done + [e], rest, sel, dt);
    }
  }

  // ---------------------------------------------------------------- whole scans and runs of scans

  function MarkUnseen(t: seq<TopProc>): (u: seq<TopProc>)
    ensures |u| == |t| && forall s :: 0 <= s < |t| ==> u[s] == t[s].(state := 0)
  {
    seq(|t|, s requires 0 <= s < |t| => t[s].(state := 0))
  }

  function Flush(t: seq<TopProc>): (u: seq<TopProc>)
    ensures |u| == |t| && forall s :: 0 <= s < |t| ==> u[s] == if t[s].state == 0 then t[s].(pid := EMPTY) else t[s]
  {
    seq(|t|, s requires 0 <= s < |t| => if t[s].state == 0 then t[s].(pid := EMPTY) else t[s])
  }

  lemma MarkUnseenStart(t: seq<TopProc>)
    requires TableOk(t)
    ensures TableOk(MarkUnseen(t)) && Placed(MarkUnseen(t), [])
    ensures Count(MarkUnseen(t), Occupied) == Count(t, Occupied)
    ensures forall k :: k == Seen || (k.InState? && k.k != 0) ==> Count(MarkUnseen(t), k) == 0
  {
    CountAgree(MarkUnseen(t), Occupied, t, Occupied);
    forall k | k == Seen || (k.InState? && k.k != 0)
      ensures Count(MarkUnseen(t), k) == 0
    {
      CountNone(MarkUnseen(t), k);
    }
  }

  lemma {:induction false} CountNone(t: seq<TopProc>, kind: Kind)
    requires forall s :: 0 <= s < |t| ==> !Is(kind, t[s])
    ensures Count(t, kind) == 0
  {
    if t != [] {
      CountNone(t[1..], kind);
    }
  }

  /** The state in front of the directory loop: a marked table and cleared tallies. */
  ghost function Start(t: seq<TopProc>): (st: ScanState)
    requires TableOk(t)
    ensures StateOk(st)
  {
    MarkUnseenStart(t);
    ScanState(MarkUnseen(t), 0, seq(NPROCSTATES, _ => 0), [])
  }

  /** Every probe of a scan of this table halts. */
  ghost predicate ScanHalts(t: seq<TopProc>, es: seq<DirEntry>, sel: Select, dt: real)
    requires TableOk(t) && dt > 0.0
  {
    AllHalt(Start(t), es, sel, dt)
  }

  ghost function Scan(t: seq<TopProc>, es: seq<DirEntry>, sel: Select, dt: real): (r: ScanState)
    requires TableOk(t) && dt > 0.0 && ScanHalts(t, es, sel, dt)
    ensures StateOk(r)
  {
    var r := ScanFrom(Start(t), es, sel, dt);
    r.(table := Flush(r.table))
  }

  /** The occupied slots of `t` are exactly the visible processes of `es`, each in one slot that
      holds what was read. */
  ghost predicate Mirrors(t: seq<TopProc>, es: seq<DirEntry>) {
    && (forall s :: 0 <= s < |t| ==> (t[s].pid != EMPTY <==> t[s].state != 0))
    && Placed(t, es)
  }

  /** A finished scan reports what it read: the table, its counts per state, the total and the active
      list all describe the same set of processes. */
  ghost predicate Reports(r: ScanState, es: seq<DirEntry>, sel: Select) {
    && Mirrors(r.table, es) && Tallied(r) && Listed(r.table, r.active, sel)
    && r.total == VisibleCount(es) == Count(r.table, Occupied)
  }

  /** One scan of any table, however its chains are broken, reports what it read. */
  lemma ScanMirrors(t: seq<TopProc>, es: seq<DirEntry>, sel: Select, dt: real)
    requires TableOk(t) && dt > 0.0 && ScanHalts(t, es, sel, dt) && Distinct(es)
    ensures Reports(Scan(t, es, sel, dt), es, sel)
  {
    StartMidway(t, sel);
    assert [] + es == es;
    ScanMidway(Start(t), [], es, sel, dt);
    var r := ScanFrom(Start(t), es, sel, dt);
    FlushPlaced(r.table, es);
    FlushTallies(r, sel);
  }

  lemma StartMidway(t: seq<TopProc>, sel: Select)
    requires TableOk(t)
    ensures Midway(Start(t), [], sel) && Start(t).total == 0
  {
    MarkUnseenStart(t);
    SumZeros(Start(t).states);
  }

  lemma FlushTallies(r: ScanState, sel: Select)
    requires TableOk(r.table) && Tallied(r) && Listed(r.table, r.active, sel)
    ensures var u := r.(table := Flush(r.table));
            Tallied(u) && Listed(u.table, u.active, sel) && Count(u.table, Occupied) == r.total
  {
    var u := Flush(r.table);
    CountAgree(u, Occupied, r.table, Seen);
    CountAgree(u, Seen, r.table, Seen);
    forall k | 1 <= k < NPROCSTATES
      ensures Count(u, InState(k)) == Count(r.table, InState(k))
    {
      CountAgree(u, InState(k), r.table, InState(k));
    }
  }

  lemma FlushPlaced(t: seq<TopProc>, es: seq<DirEntry>)
    requires TableOk(t) && Placed(t, es)
    ensures Mirrors(Flush(t), es)
  {
    forall k | 0 <= k < |es| && Visible(es[k])
      ensures Shown(Flush(t), es[k])
    {
      var s :| 0 <= s < |t| && Records(t[s], es[k]);
      assert Records(Flush(t)[s], es[k]);
    }
  }

  lemma {:induction false} SumZeros(xs: seq<nat>)
    requires forall i :: 0 <= i < |xs| ==> xs[i] == 0
    ensures Sum(xs) == 0
  {
    if xs != [] {
      SumZeros(xs[1..]);
    }
  }

  // ---------------------------------------------------------------- the report, letter by letter

  predicate Carries(e: DirEntry, letters: string) {
    e.stat.Parsed? && e.stat.letter in letters
  }

  /** The entries whose stat line carries one of the letters. */
  function Carriers(es: seq<DirEntry>, letters: string): set<int> {
    set i | 0 <= i < |es| && Carries(es[i], letters)
  }

  lemma OneMoreCarrier(es: seq<DirEntry>, e: DirEntry, letters: string)
    ensures |Carriers(es + [e], letters)| == |Carriers(es, letters)| + (if Carries(e, letters) then 1 else 0)
  {
    var more := Carriers(es + [e], letters);
    assert forall i :: 0 <= i < |es| ==> (es + [e])[i] == es[i];
    if Carries(e, letters) {
      assert more == Carriers(es, letters) + {|es|};
    } else {
      assert more == Carriers(es, letters);
    }
  }

  const LETTERS := "RSDZTW"

  /** The tallies of a scan that has read `done`, by the letters in the stat lines. */
  ghost predicate Lettered(st: ScanState, done: seq<DirEntry>) {
    && |st.states| == NPROCSTATES && st.total == |Carriers(done, LETTERS)|
    && forall k :: 1 <= k <= 6 ==> st.states[k] == |Carriers(done, [LETTERS[k - 1]])|
  }

  lemma StepLettered(st: ScanState, done: seq<DirEntry>, e: DirEntry, sel: Select, dt: real)
    requires StateOk(st) && Halts(st.table, e.pid) && dt > 0.0 && Lettered(st, done)
    requires st.table[Probe(st.table, e.pid)].state == 0
    ensures Lettered(Step(st, e, sel, dt), done + [e])
  {
    OneMoreCarrier(done, e, LETTERS);
    var next := Step(st, e, sel, dt);
    forall k | 1 <= k <= 6
      ensures next.states[k] == |Carriers(done + [e], [LETTERS[k - 1]])|
    {
      OneMoreCarrier(done, e, [LETTERS[k - 1]]);
    }
  }

  lemma {:induction false} ScanLettered(st: ScanState, done: seq<DirEntry>, es: seq<DirEntry>, sel: Select, dt: real)
    requires StateOk(st) && dt > 0.0 && AllHalt(st, es, sel, dt)
    requires Distinct(done + es) && Midway(st, done, sel) && Lettered(st, done)
    ensures Lettered(ScanFrom(st, es, sel, dt), done + es)
    decreases |es|
  {
    if es == [] {
      assert done + es == done;
    } else {
      var e, rest := es[0], es[1..];
      assert es == [e] + rest;
      NextOfScan(st, es, sel, dt);
      DistinctFresh(done, es);
      ProbedSlotUnseen(st.table, done, e);
      StepLettered(st, done, e, sel, dt);
      NextMidway(st, done, e, rest, sel, dt);
      ScanLettered(Step(st, e, sel, dt), done + [e], rest, sel, dt);
    }
  }

  lemma ScanCounts(t: seq<TopProc>, es: seq<DirEntry>, sel: Select, dt: real)
    requires TableOk(t) && dt > 0.0 && ScanHalts(t, es, sel, dt) && Distinct(es)
    ensures Lettered(Scan(t, es, sel, dt), es)
  {
    StartMidway(t, sel);
    assert [] + es == es && forall letters :: Carriers([], letters) == {};
    ScanLettered(Start(t), [], es, sel, dt);
  }

  /** The count of each state is the number of stat lines with its letter, R, S, D, Z, T and W being the states
      1 to 6, and the total is the number of stat lines with any of them. */
  lemma ScanByLetter(t: seq<TopProc>, es: seq<DirEntry>, sel: Select, dt: real)
    requires TableOk(t) && dt > 0.0 && ScanHalts(t, es, sel, dt) && Distinct(es)
    ensures var r := Scan(t, es, sel, dt);
            && |r.states| == 7
            && r.total == |set i | 0 <= i < |es| && es[i].stat.Parsed? && es[i].stat.letter in "RSDZTW"|
            && forall k :: 1 <= k <= 6 ==>
                 r.states[k] == |set i | 0 <= i < |es| && es[i].stat.Parsed? && es[i].stat.letter == "RSDZTW"[k - 1]|
  {
    var r := Scan(t, es, sel, dt);
    ScanCounts(t, es, sel, dt);
    assert Carriers(es, LETTERS) == set i | 0 <= i < |es| && es[i].stat.Parsed? && es[i].stat.letter in "RSDZTW";
    forall k | 1 <= k <= 6
      ensures r.states[k] == |set i | 0 <= i < |es| && es[i].stat.Parsed? && es[i].stat.letter == "RSDZTW"[k - 1]|
    {
      assert Carriers(es, [LETTERS[k - 1]]) == set i | 0 <= i < |es| && es[i].stat.Parsed? && es[i].stat.letter == "RSDZTW"[k - 1];
    }
  }

  lemma HasIsIn(xs: seq<nat>, s: nat)
    ensures Has(xs, s) <==> s in xs
  {
    if xs != [] {
      HasIsIn(xs[..|xs| - 1], s);
      assert xs == xs[..|xs| - 1] + [xs[|xs| - 1]];
    }
  }

  lemma {:induction false} NoRepeatsIs(xs: seq<nat>)
    requires NoRepeats(xs)
    ensures forall i, j :: 0 <= i < j < |xs| ==> xs[i] != xs[j]
  {
    if xs != [] {
      var n := |xs| - 1;
      NoRepeatsIs(xs[..n]);
      HasIsIn(xs[..n], xs[n]);
      assert forall i :: 0 <= i < n ==> xs[i] == xs[..n][i] && xs[i] in xs[..n];
    }
  }

  /** The active list after a scan: exactly the processes that are running or used the CPU, or all when idle ones
      are shown, of the selected user, or of all when none is selected; each once. */
  lemma ScanLists(t: seq<TopProc>, es: seq<DirEntry>, sel: Select, dt: real)
    requires TableOk(t) && dt > 0.0 && ScanHalts(t, es, sel, dt) && Distinct(es)
    ensures var r := Scan(t, es, sel, dt);
            && |r.table| == 6000
            && (forall i, j :: 0 <= i < j < |r.active| ==> r.active[i] != r.active[j])
            && forall s: nat :: s in r.active <==>
                 s < 6000 && r.table[s].pid != -1
                 && (sel.idle || r.table[s].state == 1 || r.table[s].pcpu != 0.0) && (sel.uid == -1 || r.table[s].uid == sel.uid)
  {
    ScanMirrors(t, es, sel, dt);
    var r := Scan(t, es, sel, dt);
    NoRepeatsIs(r.active);
    forall s: nat
      ensures Has(r.active, s) <==> s in r.active
    {
      HasIsIn(r.active, s);
    }
  }

  /** The slot holds what this stat line says. */
  lemma RecordsSay(p: TopProc, e: DirEntry)
    ensures Records(p, e) <==>
              && e.stat.Parsed? && 1 <= p.state <= 6 && e.stat.letter == "RSDZTW"[p.state - 1]
              && p.pid == e.pid && p.uid == e.stat.owner && p.time == e.stat.ticks
  {
  }

  /** What the occupied slots hold after a scan: the pid, the state by its letter, the owner and the ticks of a
      stat line read in it, each such line being in a slot. */
  lemma ScanShows(t: seq<TopProc>, es: seq<DirEntry>, sel: Select, dt: real)
    requires TableOk(t) && dt > 0.0 && ScanHalts(t, es, sel, dt) && Distinct(es)
    ensures var u := Scan(t, es, sel, dt).table;
            && |u| == 6000
            && (forall s :: 0 <= s < 6000 && u[s].pid != -1 ==>
                  exists i :: 0 <= i < |es| && es[i].stat.Parsed? && u[s].pid == es[i].pid && 1 <= u[s].state <= 6
                           && es[i].stat.letter == "RSDZTW"[u[s].state - 1] && u[s].uid == es[i].stat.owner && u[s].time == es[i].stat.ticks)
            && (forall i :: 0 <= i < |es| && es[i].stat.Parsed? && es[i].stat.letter in "RSDZTW" ==>
                  exists s :: 0 <= s < 6000 && u[s].pid == es[i].pid && 1 <= u[s].state <= 6
                           && es[i].stat.letter == "RSDZTW"[u[s].state - 1] && u[s].uid == es[i].stat.owner && u[s].time == es[i].stat.ticks)
  {
    ScanMirrors(t, es, sel, dt);
    var u := Scan(t, es, sel, dt).table;
    forall s | 0 <= s < 6000 && u[s].pid != -1
      ensures exists i :: 0 <= i < |es| && Records(u[s], es[i])
    {
      var i := BackedPid(u[s], es);
    }
    forall i | 0 <= i < |es| && es[i].stat.Parsed? && es[i].stat.letter in "RSDZTW"
      ensures exists s :: 0 <= s < 6000 && Records(u[s], es[i])
    {
      assert Visible(es[i]) && Shown(u, es[i]);
    }
    forall s, i | 0 <= s < 6000 && 0 <= i < |es|
      ensures Records(u[s], es[i]) <==>
              && es[i].stat.Parsed? && 1 <= u[s].state <= 6 && es[i].stat.letter == "RSDZTW"[u[s].state - 1]
              && u[s].pid == es[i].pid && u[s].uid == es[i].stat.owner && u[s].time == es[i].stat.ticks
    {
      RecordsSay(u[s], es[i]);
    }
  }

  datatype ScanInput = ScanInput(entries: seq<DirEntry>, sel: Select, dt: real)

  /** Each scan reads distinct pids after a positive time, and all its probes halt. */
  ghost predicate Admissible(t: seq<TopProc>, scans: seq<ScanInput>)
    requires TableOk(t)
    decreases |scans|
  {
    scans == [] ||
    (&& Distinct(scans[0].entries) && scans[0].dt > 0.0
     && ScanHalts(t, scans[0].entries, scans[0].sel, scans[0].dt)
     && Admissible(Scan(t, scans[0].entries, scans[0].sel, scans[0].dt).table, scans[1..]))
  }

  /** Two consecutive scans together show fewer processes than there are slots. */
  ghost predicate Roomy(live: nat, scans: seq<ScanInput>)
    decreases |scans|
  {
    scans == [] ||
    (&& Distinct(scans[0].entries) && scans[0].dt > 0.0
     && live + VisibleCount(scans[0].entries) < HASH_SIZE
     && Roomy(VisibleCount(scans[0].entries), scans[1..]))
  }

  lemma RoomScanHalts(t: seq<TopProc>, es: seq<DirEntry>, sel: Select, dt: real)
    requires TableOk(t) && dt > 0.0 && Count(t, Occupied) + VisibleCount(es) < HASH_SIZE
    ensures ScanHalts(t, es, sel, dt)
  {
    MarkUnseenStart(t);
    RoomAllHalts(Start(t), es, sel, dt);
  }

  lemma {:induction false} RoomyRuns(t: seq<TopProc>, scans: seq<ScanInput>)
    requires TableOk(t) && Roomy(Count(t, Occupied), scans)
    ensures Admissible(t, scans)
    decreases |scans|
  {
    if scans != [] {
      var c := scans[0];
      RoomScanHalts(t, c.entries, c.sel, c.dt);
      ScanMirrors(t, c.entries, c.sel, c.dt);
      RoomyRuns(Scan(t, c.entries, c.sel, c.dt).table, scans[1..]);
    }
  }

  lemma FullStep(st: ScanState, e: DirEntry, sel: Select, dt: real)
    requires StateOk(st) && dt > 0.0 && forall s :: 0 <= s < HASH_SIZE ==> st.table[s].pid != EMPTY
    ensures Halts(st.table, e.pid) <==> Knows(st.table, e.pid)
    ensures Halts(st.table, e.pid) ==> forall s :: 0 <= s < HASH_SIZE ==> Step(st, e, sel, dt).table[s].pid == st.table[s].pid
  {
    HaltsExactly(st.table, e.pid);
    CountFull(st.table);
  }

  /** With every slot occupied, the probes of a scan halt if and only if every pid read is in the table. */
  lemma {:induction false} FullHalts(st: ScanState, es: seq<DirEntry>, sel: Select, dt: real)
    requires StateOk(st) && dt > 0.0 && forall s :: 0 <= s < HASH_SIZE ==> st.table[s].pid != EMPTY
    ensures AllHalt(st, es, sel, dt) <==> forall k :: 0 <= k < |es| ==> Knows(st.table, es[k].pid)
    decreases |es|
  {
    if es != [] {
      FullStep(st, es[0], sel, dt);
      if Halts(st.table, es[0].pid) {
        var next, rest := Step(st, es[0], sel, dt), es[1..];
        FullHalts(next, rest, sel, dt);
        SameKnown(st.table, next.table);
        assert forall k :: 0 < k < |es| ==> es[k] == rest[k - 1];
        assert forall k :: 0 <= k < |rest| ==> rest[k] == es[k + 1];
      }
    }
  }

  lemma SameKnown(t: seq<TopProc>, u: seq<TopProc>)
    requires |t| == |u| && forall s :: 0 <= s < |t| ==> t[s].pid == u[s].pid
    ensures forall pid: nat :: Knows(t, pid) <==> Knows(u, pid)
  {
    forall pid: nat
      ensures Knows(t, pid) <==> Knows(u, pid)
    {
      if Knows(t, pid) {
        var s :| 0 <= s < |t| && t[s].pid == pid;
        assert u[s].pid == pid;
      }
      if Knows(u, pid) {
        var s :| 0 <= s < |u| && u[s].pid == pid;
        assert t[s].pid == pid;
      }
    }
  }

  /** A scan that reads only pids of the table halts however full the table is. */
  lemma KnownPidsHalt(t: seq<TopProc>, es: seq<DirEntry>, sel: Select, dt: real)
    requires TableOk(t) && dt > 0.0 && forall k :: 0 <= k < |es| ==> Knows(t, es[k].pid)
    ensures ScanHalts(t, es, sel, dt)
  {
    var st := Start(t);
    forall k | 0 <= k < |es|
      ensures Knows(st.table, es[k].pid)
    {
      var s :| 0 <= s < |t| && t[s].pid == es[k].pid;
      assert st.table[s].pid == es[k].pid;
    }
    KnownOrRoom(st, es, sel, dt);
  }

  /** The state after the last of a run of scans. */
  ghost function Run(t: seq<TopProc>, scans: seq<ScanInput>): (last: ScanState)
    requires TableOk(t) && scans != [] && Admissible(t, scans)
    decreases |scans|
  {
    var r := Scan(t, scans[0].entries, scans[0].sel, scans[0].dt);
    if |scans| == 1 then r else Run(r.table, scans[1..])
  }

  /** After any number of scans the table and all tallies report the last one. */
  lemma {:induction false} RunMirrors(t: seq<TopProc>, scans: seq<ScanInput>)
    requires TableOk(t) && scans != [] && Admissible(t, scans)
    ensures Reports(Run(t, scans), scans[|scans| - 1].entries, scans[|scans| - 1].sel)
    decreases |scans|
  {
    var c, rest := scans[0], scans[1..];
    if |scans| == 1 {
      ScanMirrors(t, c.entries, c.sel, c.dt);
    } else {
      var r := Scan(t, c.entries, c.sel, c.dt);
      assert rest[|rest| - 1] == scans[|scans| - 1];
      RunMirrors(r.table, rest);
    }
  }

  // ---------------------------------------------------------------- the active count

  /** A list that names the slots of a kind, each once, is as long as there are such slots. */
  lemma {:induction false} ListedCount(t: seq<TopProc>, active: seq<nat>, sel: Select)
    requires Listed(t, active, sel)
    ensures |active| == Count(t, Passing(sel))
    decreases |active|
  {
    if active == [] {
      CountNone(t, Passing(sel));
    } else {
      var front, s := active[..|active| - 1], active[|active| - 1];
      assert Has(active, s);
      var gone := t[s].(state := 0);
      CountUpdate(t, s, gone, Passing(sel));
      assert forall r: nat :: Has(active, r) <==> r == s || Has(front, r);
      ListedCount(t[s := gone], front, sel);
    }
  }

  lemma {:induction false} CountPart(t: seq<TopProc>, sel: Select)
    ensures Count(t, Passing(sel)) <= Count(t, Seen)
    ensures Count(t, Passing(sel)) == Count(t, Seen) <==> forall s :: 0 <= s < |t| && t[s].state != 0 ==> Passes(t[s], sel)
  {
    if t != [] {
      CountPart(t[1..], sel);
      assert t == [t[0]] + t[1..];
    }
  }

  /** The source reports the number of processes seen as the number of active ones. After a scan that is
      the length of the active list exactly when every process in the table passes the selection. */
  lemma ActiveCount(t: seq<TopProc>, es: seq<DirEntry>, sel: Select, dt: real)
    requires TableOk(t) && dt > 0.0 && ScanHalts(t, es, sel, dt) && Distinct(es)
    ensures var r := Scan(t, es, sel, dt);
            && |r.active| <= r.total
            && (|r.active| == r.total <==> forall s :: 0 <= s < |r.table| && r.table[s].state != 0 ==> Passes(r.table[s], sel))
  {
    ScanMirrors(t, es, sel, dt);
    var r := Scan(t, es, sel, dt);
    ListedCount(r.table, r.active, sel);
    CountPart(r.table, sel);
  }

  lemma ScanOutcome(t: seq<TopProc>, es: seq<DirEntry>, sel: Select, dt: real)
    requires TableOk(t) && dt > 0.0 && ScanHalts(t, es, sel, dt) && Distinct(es)
    ensures var r := Scan(t, es, sel, dt);
            && r.total == VisibleCount(es) && Mirrors(r.table, es) && ListedBy(t, es, sel, dt) == |r.active| <= r.total
            && (|r.active| == r.total <==> forall s :: 0 <= s < |r.table| && r.table[s].state != 0 ==> Passes(r.table[s], sel))
  {
    ScanMirrors(t, es, sel, dt);
    ActiveCount(t, es, sel, dt);
  }

  const EMPTY_TABLE := seq(HASH_SIZE, _ => TopProc(EMPTY, 0, 0, 0, 0.0))

  lemma EmptyTable()
    ensures TableOk(EMPTY_TABLE) && Count(EMPTY_TABLE, Occupied) == 0
  {
    CountNone(EMPTY_TABLE, Occupied);
  }

  /** A sleeping process without ticks under an owner that the selection does not name. */
  function Idler(sel: Select): DirEntry {
    DirEntry(1, Parsed(if sel.uid == 0 then 1 else 0, 'S', 0))
  }

  lemma IdlerUnlisted(sel: Select)
    requires !(sel.idle && sel.uid == -1)
    ensures ScanHalts(EMPTY_TABLE, [Idler(sel)], sel, 1.0)
    ensures var r := Scan(EMPTY_TABLE, [Idler(sel)], sel, 1.0);
            |r.active| < r.total
  {
    EmptyTable();
    MarkUnseenStart(EMPTY_TABLE);
    var e := Idler(sel);
    assert [e][1..] == [];
    var st := Start(EMPTY_TABLE);
    RoomScanHalts(EMPTY_TABLE, [e], sel, 1.0);
    var next := Step(st, e, sel, 1.0);
    assert st.table[Probe(st.table, e.pid)].pid == EMPTY;
    assert next.active == [] && next.total == 1;
    assert ScanFrom(next, [e][1..], sel, 1.0) == next;
    assert Scan(EMPTY_TABLE, [e], sel, 1.0) == next.(table := Flush(next.table));
  }

  /** The reported count is the listed one after every scan exactly for the selection of all users with
      idle processes shown. */
  lemma CountsAgree(sel: Select)
    ensures (forall t, es, dt :: TableOk(t) && dt > 0.0 && ScanHalts(t, es, sel, dt) && Distinct(es) ==>
               |Scan(t, es, sel, dt).active| == Scan(t, es, sel, dt).total)
       <==> sel.idle && sel.uid == -1
  {
    if sel.idle && sel.uid == -1 {
      forall t, es, dt | TableOk(t) && dt > 0.0 && ScanHalts(t, es, sel, dt) && Distinct(es)
        ensures |Scan(t, es, sel, dt).active| == Scan(t, es, sel, dt).total
      {
        ActiveCount(t, es, sel, dt);
      }
    } else {
      EmptyTable();
      IdlerUnlisted(sel);
    }
  }

  // ---------------------------------------------------------------- gaps

  /** A scan leaves a slot alone as long as it does not read the pid in it. */
  lemma {:induction false} SlotKept(st: ScanState, es: seq<DirEntry>, sel: Select, dt: real, s: nat)
    requires StateOk(st) && dt > 0.0 && AllHalt(st, es, sel, dt)
    requires s < HASH_SIZE && st.table[s].pid != EMPTY && forall k :: 0 <= k < |es| ==> es[k].pid != st.table[s].pid
    ensures ScanFrom(st, es, sel, dt).table[s] == st.table[s]
    decreases |es|
  {
    if es != [] {
      var e, rest := es[0], es[1..];
      var next := Step(st, e, sel, dt);
      assert next.table[s] == st.table[s];
      SlotKept(next, rest, sel, dt, s);
    }
  }

  /** Once a scan has read a pid, the slots that hold it stay as they are to its end. */
  lemma ReadOnce(st: ScanState, es: seq<DirEntry>, sel: Select, dt: real, s: nat)
    requires StateOk(st) && dt > 0.0 && AllHalt(st, es, sel, dt) && Distinct(es) && es != []
    ensures s < HASH_SIZE && Step(st, es[0], sel, dt).table[s].pid == es[0].pid ==>
              ScanFrom(st, es, sel, dt).table[s] == Step(st, es[0], sel, dt).table[s]
  {
    var e := es[0];
    var next := Step(st, e, sel, dt);
    if s < HASH_SIZE && next.table[s].pid == e.pid {
      SlotKept(next, es[1..], sel, dt, s);
    }
  }

  /** A visible pid that has a slot is left in it at the end of the scan, its load computed against the ticks
      kept there, if and only if no empty slot lies on the way. */
  lemma HistoryKept(st: ScanState, es: seq<DirEntry>, sel: Select, dt: real, s: nat)
    requires StateOk(st) && dt > 0.0 && AllHalt(st, es, sel, dt) && Distinct(es)
    requires es != [] && Visible(es[0]) && Alone(st.table, es[0].pid, s) && st.table[s].state == 0
    ensures var e, u := es[0], ScanFrom(st, es, sel, dt).table[s];
            && (Records(u, e) <==> forall d :: 0 <= d < Distance(e.pid, s) ==> st.table[SlotAt(e.pid, d)].pid != EMPTY)
            && (Records(u, e) ==> u.pcpu == ((e.stat.ticks - st.table[s].time) % 0x1_0000_0000_0000_0000) as real / dt)
  {
    ReadOnce(st, es, sel, dt, s);
    HistoryStep(st, es[0], sel, dt, s);
  }

  lemma HistoryStep(st: ScanState, e: DirEntry, sel: Select, dt: real, s: nat)
    requires StateOk(st) && dt > 0.0 && Halts(st.table, e.pid)
    requires Visible(e) && Alone(st.table, e.pid, s) && st.table[s].state == 0
    ensures var u := Step(st, e, sel, dt).table[s];
            && u.pid == e.pid
            && (Records(u, e) <==> forall d :: 0 <= d < Distance(e.pid, s) ==> st.table[SlotAt(e.pid, d)].pid != EMPTY)
            && (Records(u, e) ==> u.pcpu == ((e.stat.ticks - st.table[s].time) % 0x1_0000_0000_0000_0000) as real / dt)
  {
    FoundAgain(st.table, e.pid, s);
  }

  /** When the probe for a visible pid settles in front of its slot, the pid is inserted again: up to the end
      of the scan two slots hold it, the old one untouched and the new one with a load computed as if its ticks
      had started from zero. The flush then drops the old one. */
  lemma GapDuplicates(st: ScanState, es: seq<DirEntry>, sel: Select, dt: real, s: nat)
    requires StateOk(st) && dt > 0.0 && AllHalt(st, es, sel, dt) && Distinct(es)
    requires es != [] && Visible(es[0]) && Halts(st.table, es[0].pid)
    requires Alone(st.table, es[0].pid, s) && Probe(st.table, es[0].pid) != s
    ensures exists gap :: 0 <= gap < Distance(es[0].pid, s) && st.table[SlotAt(es[0].pid, gap)].pid == EMPTY
    ensures var e, r, u := es[0], Probe(st.table, es[0].pid), ScanFrom(st, es, sel, dt).table;
            && u[s] == st.table[s] && Records(u[r], e) && u[r].pcpu == e.stat.ticks as real / dt
            && (u[s].state == 0 ==> Flush(u)[s].pid == EMPTY && Flush(u)[r] == u[r])
  {
    FoundAgain(st.table, es[0].pid, s);
    var r := Probe(st.table, es[0].pid);
    assert st.table[r].pid == EMPTY;
    ReadOnce(st, es, sel, dt, s);
    ReadOnce(st, es, sel, dt, r);
  }

  /** Exactly the slots `pids` are occupied, by these pids. */
  ghost predicate Holding(t: seq<TopProc>, pids: map<nat, int>) {
    && TableOk(t)
    && forall s :: 0 <= s < HASH_SIZE ==> t[s].pid == if s in pids then pids[s] else EMPTY
  }

  /** A running process. */
  function Running(pid: nat, ticks: nat): DirEntry {
    DirEntry(pid, Parsed(0, 'R', ticks))
  }

  // Pid 2 and pid 2898 have the same hash; the second one read goes one slot further.
  const SHARED: nat := 5426

  lemma SharedHash()
    ensures Hash(2) == Hash(2898) == SHARED
  {
    assert 2 * 1686629713 == 562209 * 6000 + 5426;
    assert 2898 * 1686629713 == 1138 * 0x1_0000_0000 + 180125426;
    assert 180125426 == 30020 * 6000 + 5426;
  }

  /** Read into a table without processes, the two take the shared slot and the next one. */
  lemma TwoSettle(st: ScanState, x: nat, y: nat, sel: Select, dt: real)
    requires StateOk(st) && dt > 0.0 && forall s :: 0 <= s < HASH_SIZE ==> st.table[s].pid == EMPTY
    ensures AllHalt(st, [Running(2, x), Running(2898, y)], sel, dt)
    ensures var u := ScanFrom(st, [Running(2, x), Running(2898, y)], sel, dt).table;
            && u[SHARED].pid == 2 && u[SHARED].state == 1 && u[SHARED + 1].pid == 2898 && u[SHARED + 1].state == 1
            && forall s :: 0 <= s < HASH_SIZE && s != SHARED && s != SHARED + 1 ==> u[s] == st.table[s]
  {
    var a, b := Running(2, x), Running(2898, y);
    SettlesShared(st.table, 2);
    RunningAt(st, 2, x, sel, dt, SHARED);
    var st1 := Step(st, a, sel, dt);
    SettlesShared(st1.table, 2898);
    RunningAt(st1, 2898, y, sel, dt, SHARED + 1);
    ScanOfTwo(st, a, b, sel, dt);
  }

  lemma FirstScan(x: nat, y: nat, sel: Select, dt: real)
    requires dt > 0.0
    ensures var es := [Running(2, x), Running(2898, y)];
            && Distinct(es) && Count(EMPTY_TABLE, Occupied) == 0 && VisibleCount(es) == 2
            && ScanHalts(EMPTY_TABLE, es, sel, dt)
            && Holding(Scan(EMPTY_TABLE, es, sel, dt).table, map[SHARED := 2, SHARED + 1 := 2898])
  {
    EmptyTable();
    var a, b := Running(2, x), Running(2898, y);
    var es := [a, b];
    assert es[1..] == [b] && [b][1..] == [] && VisibleCount([b]) == 1;
    TwoSettle(Start(EMPTY_TABLE), x, y, sel, dt);
  }

  lemma ScanOfOne(st: ScanState, e: DirEntry, sel: Select, dt: real)
    requires StateOk(st) && dt > 0.0 && Halts(st.table, e.pid)
    ensures AllHalt(st, [e], sel, dt) && ScanFrom(st, [e], sel, dt) == Step(st, e, sel, dt)
  {
    assert [e][1..] == [];
  }

  lemma ScanOfMore(st: ScanState, e: DirEntry, rest: seq<DirEntry>, sel: Select, dt: real)
    requires StateOk(st) && dt > 0.0 && Halts(st.table, e.pid)
    ensures var next := Step(st, e, sel, dt);
            AllHalt(next, rest, sel, dt) ==>
              AllHalt(st, [e] + rest, sel, dt) && ScanFrom(st, [e] + rest, sel, dt) == ScanFrom(next, rest, sel, dt)
  {
    assert ([e] + rest)[1..] == rest;
  }

  lemma ScanOfTwo(st: ScanState, a: DirEntry, b: DirEntry, sel: Select, dt: real)
    requires StateOk(st) && dt > 0.0 && Halts(st.table, a.pid) && Halts(Step(st, a, sel, dt).table, b.pid)
    ensures AllHalt(st, [a, b], sel, dt) && ScanFrom(st, [a, b], sel, dt) == Step(Step(st, a, sel, dt), b, sel, dt)
  {
    ScanOfOne(Step(st, a, sel, dt), b, sel, dt);
    ScanOfMore(st, a, [b], sel, dt);
    assert [a] + [b] == [a, b];
  }

  /** A running process that settles on slot `s`. */
  lemma RunningAt(st: ScanState, pid: nat, ticks: nat, sel: Select, dt: real, s: nat)
    requires StateOk(st) && dt > 0.0 && Halts(st.table, pid) && s == Probe(st.table, pid)
    ensures var next := Step(st, Running(pid, ticks), sel, dt);
            && Count(next.table, Occupied) <= Count(st.table, Occupied) + 1
            && next.table[s].pid == pid && next.table[s].state == 1
            && forall r :: 0 <= r < HASH_SIZE && r != s ==> next.table[r] == st.table[r]
  {
    StepRoom(st, Running(pid, ticks), sel, dt);
  }

  /** The probe settles on the shared slot, or on the next one when another pid holds the shared one. */
  lemma SettlesShared(t: seq<TopProc>, pid: nat)
    requires |t| == HASH_SIZE && (pid == 2 || pid == 2898)
    ensures Stops(t, pid, SHARED) ==> Halts(t, pid) && Probe(t, pid) == SHARED
    ensures !Stops(t, pid, SHARED) && Stops(t, pid, SHARED + 1) ==> Halts(t, pid) && Probe(t, pid) == SHARED + 1
  {
    SharedHash();
    if Stops(t, pid, SHARED) {
      ProbeIsFirst(t, pid, SHARED);
    } else if Stops(t, pid, SHARED + 1) {
      assert SlotAt(pid, 0) == SHARED && Distance(pid, SHARED + 1) == 1;
      ProbeIsFirst(t, pid, SHARED + 1);
    }
  }

  lemma SecondScan(t: seq<TopProc>, y: nat, sel: Select, dt: real)
    requires dt > 0.0 && Holding(t, map[SHARED := 2, SHARED + 1 := 2898]) && Count(t, Occupied) + 1 < HASH_SIZE
    ensures ScanHalts(t, [Running(2898, y)], sel, dt) && VisibleCount([Running(2898, y)]) == 1
    ensures Holding(Scan(t, [Running(2898, y)], sel, dt).table, map[SHARED + 1 := 2898])
  {
    SharedHash();
    MarkUnseenStart(t);
    var b := Running(2898, y);
    assert [b][1..] == [] && VisibleCount([b]) == 1;
    RoomScanHalts(t, [b], sel, dt);
    var st := Start(t);
    SettlesShared(st.table, 2898);
    RunningAt(st, 2898, y, sel, dt, SHARED + 1);
    var st1 := Step(st, b, sel, dt);
    assert ScanFrom(st1, [], sel, dt) == st1;
    assert ScanFrom(st, [b], sel, dt) == st1;
  }

  lemma GapLeft(u: seq<TopProc>)
    requires Holding(u, map[SHARED + 1 := 2898])
    ensures BehindGap(u, 2898, SHARED + 1, 0)
  {
    SharedHash();
  }

  lemma LastScan(t: seq<TopProc>, c: ScanInput)
    requires TableOk(t) && Distinct(c.entries) && c.dt > 0.0 && ScanHalts(t, c.entries, c.sel, c.dt)
    ensures Admissible(t, [c]) && Run(t, [c]) == Scan(t, c.entries, c.sel, c.dt)
  {
    assert [c][1..] == [];
  }

  lemma NextScan(t: seq<TopProc>, c: ScanInput, d: ScanInput, u: seq<TopProc>)
    requires TableOk(t) && Distinct(c.entries) && c.dt > 0.0 && ScanHalts(t, c.entries, c.sel, c.dt)
    requires u == Scan(t, c.entries, c.sel, c.dt).table && Admissible(u, [d])
    ensures Admissible(t, [c, d]) && Run(t, [c, d]) == Run(u, [d])
  {
    assert [c, d][1..] == [d];
  }

  /** Gaps are reached: pid 2 and pid 2898 are read, then pid 2898 alone; the flush empties the slot of pid 2,
      which lies on the way to the slot of pid 2898. */
  lemma GapReached(x: nat, y: nat, y2: nat, sel: Select, dt: real) returns (u: seq<TopProc>)
    requires dt > 0.0
    ensures TableOk(EMPTY_TABLE) && Admissible(EMPTY_TABLE, GapScans(x, y, y2, sel, dt))
    ensures u == Run(EMPTY_TABLE, GapScans(x, y, y2, sel, dt)).table
    ensures TableOk(u) && Count(u, Occupied) == 1 && BehindGap(u, 2898, SHARED + 1, 0)
  {
    EmptyTable();
    FirstScan(x, y, sel, dt);
    var c := ScanInput([Running(2, x), Running(2898, y)], sel, dt);
    var d := ScanInput([Running(2898, y2)], sel, dt);
    ScanMirrors(EMPTY_TABLE, c.entries, sel, dt);
    var t := Scan(EMPTY_TABLE, c.entries, sel, dt).table;
    SecondScan(t, y2, sel, dt);
    ScanMirrors(t, d.entries, sel, dt);
    u := Scan(t, d.entries, sel, dt).table;
    LastScan(t, d);
    NextScan(EMPTY_TABLE, c, d, t);
    GapLeft(u);
  }

  function GapScans(x: nat, y: nat, y2: nat, sel: Select, dt: real): seq<ScanInput> {
    [ScanInput([Running(2, x), Running(2898, y)], sel, dt), ScanInput([Running(2898, y2)], sel, dt)]
  }

  /** A scan that reads first a pid whose probe settles in front of its slot leaves it in another slot, with a
      load computed from all its ticks. */
  lemma ScanBehindGap(t: seq<TopProc>, es: seq<DirEntry>, sel: Select, dt: real, s: nat)
    requires TableOk(t) && dt > 0.0 && Distinct(es)
    requires es != [] && Visible(es[0]) && Halts(t, es[0].pid) && Alone(t, es[0].pid, s) && Probe(t, es[0].pid) != s
    ensures ScanHalts(t, es, sel, dt) ==>
              var r, u := Probe(t, es[0].pid), Scan(t, es, sel, dt).table;
              u[s].pid == EMPTY && Records(u[r], es[0]) && u[r].pcpu == es[0].stat.ticks as real / dt
  {
    MarkUnseenStart(t);
    var st := Start(t);
    SamePids(t, st.table, es[0].pid);
    if ScanHalts(t, es, sel, dt) {
      GapDuplicates(st, es, sel, dt, s);
    }
  }

  /** A probe looks at the pids alone. */
  lemma SamePids(t: seq<TopProc>, u: seq<TopProc>, pid: nat)
    requires |t| == |u| == HASH_SIZE && Halts(t, pid) && forall s :: 0 <= s < HASH_SIZE ==> t[s].pid == u[s].pid
    ensures Halts(u, pid) && Probe(u, pid) == Probe(t, pid)
  {
    var s := Probe(t, pid);
    assert Stops(u, pid, s);
    ProbeIsFirst(t, pid, s);
    assert forall e :: 0 <= e < Distance(pid, s) ==> !Stops(t, pid, SlotAt(pid, e));
    ProbeIsFirst(u, pid, s);
  }

  /** After the two scans above, any scan that reads pid 2898 first leaves it with a load computed from all
      its ticks, although every scan has read it. */
  lemma HistoryLost(x: nat, y: nat, y2: nat, y3: nat, es: seq<DirEntry>, sel: Select, dt: real) returns (t: seq<TopProc>, r: nat)
    requires dt > 0.0 && Distinct([Running(2898, y3)] + es)
    ensures TableOk(EMPTY_TABLE) && Admissible(EMPTY_TABLE, GapScans(x, y, y2, sel, dt))
    ensures t == Run(EMPTY_TABLE, GapScans(x, y, y2, sel, dt)).table
    ensures TableOk(t) && Count(t, Occupied) == 1 && r < HASH_SIZE
    ensures ScanHalts(t, [Running(2898, y3)] + es, sel, dt) ==>
              var u := Scan(t, [Running(2898, y3)] + es, sel, dt).table;
              u[r].pid == 2898 && u[r].pcpu == y3 as real / dt
  {
    t := GapReached(x, y, y2, sel, dt);
    FoundAgain(t, 2898, SHARED + 1);
    r := Probe(t, 2898);
    ScanBehindGap(t, [Running(2898, y3)] + es, sel, dt, SHARED + 1);
  }

  // ---------------------------------------------------------------- the scan as loops over the globals

  /** The readdir loop after `i` entries: nothing read twice, every probe to come halts. */
  ghost predicate ScanInv(st: ScanState, es: seq<DirEntry>, i: nat, sel: Select, dt: real)
    requires StateOk(st) && dt > 0.0
  {
    && i <= |es| && Distinct(es[..i] + es[i..]) && Midway(st, es[..i], sel)
    && AllHalt(st, es[i..], sel, dt)
  }

  lemma ScanInvStep(st: ScanState, es: seq<DirEntry>, i: nat, sel: Select, dt: real)
    requires StateOk(st) && dt > 0.0 && i < |es| && ScanInv(st, es, i, sel, dt)
    ensures Halts(st.table, es[i].pid) && st.table[Probe(st.table, es[i].pid)].state == 0
    ensures ScanInv(Step(st, es[i], sel, dt), es, i + 1, sel, dt)
    ensures ScanFrom(st, es[i..], sel, dt) == ScanFrom(Step(st, es[i], sel, dt), es[i + 1..], sel, dt)
    ensures |Step(st, es[i], sel, dt).active| <= |ScanFrom(st, es[i..], sel, dt).active|
  {
    assert es[i..][1..] == es[i + 1..] && es[..i] + [es[i]] == es[..i + 1];
    DistinctFresh(es[..i], es[i..]);
    ProbedSlotUnseen(st.table, es[..i], es[i]);
    StepMidway(st, es[..i], es[i], sel, dt);
    ActiveGrows(Step(st, es[i], sel, dt), es[i + 1..], sel, dt);
  }

  /** How many processes the rest of a scan leaves listed. */
  ghost function ListedFrom(st: ScanState, es: seq<DirEntry>, sel: Select, dt: real): nat
    requires StateOk(st) && dt > 0.0 && AllHalt(st, es, sel, dt)
  {
    |ScanFrom(st, es, sel, dt).active|
  }

  /** How many processes a scan lists. */
  ghost function ListedBy(t: seq<TopProc>, es: seq<DirEntry>, sel: Select, dt: real): nat
    requires TableOk(t) && dt > 0.0 && ScanHalts(t, es, sel, dt)
  {
    MarkUnseenStart(t);
    ListedFrom(Start(t), es, sel, dt)
  }

  /** The active list only grows. */
  lemma {:induction false} ActiveGrows(st: ScanState, es: seq<DirEntry>, sel: Select, dt: real)
    requires StateOk(st) && dt > 0.0 && AllHalt(st, es, sel, dt)
    ensures |st.active| <= |ScanFrom(st, es, sel, dt).active|
    decreases |es|
  {
    if es != [] {
      var e, rest := es[0], es[1..];
      ActiveGrows(Step(st, e, sel, dt), rest, sel, dt);
    }
  }

  class Machine {
    const ptable: array<TopProc>
    const pactive: array<nat>
    const processStates: array<nat>
    var pTotal: nat
    var pActive: nat

    ghost predicate Valid()
      reads this, ptable
    {
      && ptable.Length == HASH_SIZE && pactive.Length == NR_TASKS && processStates.Length == NPROCSTATES
      && pactive != processStates
      && TableOk(ptable[..])
    }

    /** machine_init over zeroed globals. */
    constructor ()
      ensures Valid() && Count(ptable[..], Occupied) == 0
      ensures fresh(ptable) && fresh(pactive) && fresh(processStates)
    {
      ptable := new TopProc[HASH_SIZE](_ => TopProc(EMPTY, 0, 0, 0, 0.0));
      pactive := new nat[NR_TASKS];
      processStates := new nat[NPROCSTATES];
      pTotal, pActive := 0, 0;
      new;
      CountNone(ptable[..], Occupied);
    }

    /** The probe loop: the slot it stops in is the cyclically first one that is empty or holds `pid`. */
    method Find(pid: nat) returns (s: nat)
      requires ptable.Length == HASH_SIZE && Halts(ptable[..], pid)
      ensures s == Probe(ptable[..], pid)
    {
      s := Hash(pid);
      ghost var d := 0;
      while ptable[s].pid != pid && ptable[s].pid != EMPTY
        invariant d < HASH_SIZE && s == SlotAt(pid, d) && PassedOver(ptable[..], pid, d)
        decreases HASH_SIZE - d
      {
        assert !Stops(ptable[..], pid, s);
        MoreToProbe(ptable[..], pid, d);
        s := s + 1;
        if s == HASH_SIZE {
          s := 0;
        }
        d := d + 1;
      }
      assert Stops(ptable[..], pid, s);
      ProbeIsFirst(ptable[..], pid, s);
    }

    method MarkAllUnseen()
      requires ptable.Length == HASH_SIZE
      modifies ptable
      ensures ptable[..] == MarkUnseen(old(ptable[..]))
    {
      for i := 0 to HASH_SIZE
        invariant forall j :: 0 <= j < i ==> ptable[j] == old(ptable[j]).(state := 0)
        invariant forall j :: i <= j < HASH_SIZE ==> ptable[j] == old(ptable[j])
      {
        ptable[i] := ptable[i].(state := 0);
      }
    }

    method FlushUnseen()
      requires ptable.Length == HASH_SIZE
      modifies ptable
      ensures ptable[..] == Flush(old(ptable[..]))
    {
      for i := 0 to HASH_SIZE
        invariant forall j :: 0 <= j < i ==>
                    ptable[j] == if old(ptable[j]).state == 0 then old(ptable[j]).(pid := EMPTY) else old(ptable[j])
        invariant forall j :: i <= j < HASH_SIZE ==> ptable[j] == old(ptable[j])
      {
        if ptable[i].state == 0 {
          ptable[i] := ptable[i].(pid := EMPTY);
        }
      }
    }

    /** One pass of the readdir loop: look the pid up, read it into its slot, tally and list it. */
    method ReadEntry(e: DirEntry, sel: Select, dt: real, total: nat, listed: nat)
      returns (total': nat, listed': nat)
      requires Valid() && Halts(ptable[..], e.pid) && dt > 0.0
      requires ptable[Probe(ptable[..], e.pid)].state == 0
      requires listed <= NR_TASKS
      requires |Step(ScanState(ptable[..], total, processStates[..], pactive[..listed]), e, sel, dt).active| <= NR_TASKS
      modifies ptable, pactive, processStates
      ensures Valid() && listed' <= NR_TASKS
      ensures ScanState(ptable[..], total', processStates[..], pactive[..listed'])
           == Step(ScanState(old(ptable[..]), total, old(processStates[..]), old(pactive[..listed])), e, sel, dt)
    {
      total', listed' := total, listed;
      var proc := Find(e.pid);
      var otime := ptable[proc].time;
      ptable[proc] := ReadStat(ptable[proc], e.stat);
      if ptable[proc].state == 0 {
        return;
      }
      total' := total + 1;
      processStates[ptable[proc].state] := processStates[ptable[proc].state] + 1;
      if ptable[proc].pid == EMPTY {
        ptable[proc] := ptable[proc].(pid := e.pid, pcpu := ptable[proc].time as real / dt);
      } else {
        ptable[proc] := ptable[proc].(pcpu := ((ptable[proc].time - otime) % 0x1_0000_0000_0000_0000) as real / dt);
      }
      assert ptable[..] == old(ptable[..])[proc := Charged(old(ptable[proc]), e, dt)];
      if (sel.idle || ptable[proc].state == 1 || ptable[proc].pcpu != 0.0) && (sel.uid == -1 || ptable[proc].uid == sel.uid) {
        pactive[listed] := proc;
        listed' := listed + 1;
      }
    }

    /** The readdir loop over a table that is marked and tallies that are cleared. */
    method ReadDirectory(es: seq<DirEntry>, sel: Select, dt: real) returns (total: nat, listed: nat)
      requires Valid() && dt > 0.0
      requires ScanInv(ScanState(ptable[..], 0, processStates[..], []), es, 0, sel, dt)
      requires ListedFrom(ScanState(ptable[..], 0, processStates[..], []), es, sel, dt) <= NR_TASKS
      modifies ptable, pactive, processStates
      ensures Valid() && listed <= NR_TASKS
      ensures ScanState(ptable[..], total, processStates[..], pactive[..listed])
           == ScanFrom(ScanState(old(ptable[..]), 0, old(processStates[..]), []), es, sel, dt)
    {
      ghost var start := ScanState(ptable[..], 0, processStates[..], []);
      total, listed := 0, 0;
      assert es[0..] == es && pactive[..0] == [];
      for i := 0 to |es|
        invariant Valid() && listed <= NR_TASKS
        invariant ScanInv(ScanState(ptable[..], total, processStates[..], pactive[..listed]), es, i, sel, dt)
        invariant ScanFrom(ScanState(ptable[..], total, processStates[..], pactive[..listed]), es[i..], sel, dt)
               == ScanFrom(start, es, sel, dt)
      {
        ScanInvStep(ScanState(ptable[..], total, processStates[..], pactive[..listed]), es, i, sel, dt);
        total, listed := ReadEntry(es[i], sel, dt, total, listed);
      }
    }

    /** The memset of process_states. */
    method ClearStates()
      requires Valid()
      modifies processStates
      ensures Valid() && processStates[..] == seq(NPROCSTATES, _ => 0)
    {
      for k := 0 to NPROCSTATES
        invariant Valid() && forall j :: 0 <= j < k ==> processStates[j] == 0
      {
        processStates[k] := 0;
      }
    }

    /** Mark, clear, read, flush. The first `listed` cells of `pactive` are the active list. */
    method ScanProcesses(es: seq<DirEntry>, sel: Select, dt: real) returns (total: nat, listed: nat)
      requires Valid() && dt > 0.0 && Distinct(es)
      requires ScanHalts(ptable[..], es, sel, dt)
      requires ListedBy(ptable[..], es, sel, dt) <= NR_TASKS
      modifies ptable, pactive, processStates
      ensures Valid() && listed <= NR_TASKS
      ensures ScanState(ptable[..], total, processStates[..], pactive[..listed]) == Scan(old(ptable[..]), es, sel, dt)
    {
      StartMidway(ptable[..], sel);
      MarkAllUnseen();
      ClearStates();
      assert [] + es == es && es[..0] == [] && es[0..] == es;
      assert ScanState(ptable[..], 0, processStates[..], []) == Start(old(ptable[..]));
      total, listed := ReadDirectory(es, sel, dt);
      FlushUnseen();
    }

    /** get_process_info. The listed processes must fit the list; at most NR_TASKS visible ones always do, by
        ScanOutcome. */
    method GetProcessInfo(es: seq<DirEntry>, sel: Select, dt: real) returns (ghost listed: nat)
      requires Valid() && dt > 0.0 && Distinct(es)
      requires ScanHalts(ptable[..], es, sel, dt)
      requires ListedBy(ptable[..], es, sel, dt) <= NR_TASKS
      modifies this, ptable, pactive, processStates
      ensures Valid() && listed <= NR_TASKS
      ensures ScanState(ptable[..], pTotal, processStates[..], pactive[..listed]) == Scan(old(ptable[..]), es, sel, dt)
      ensures pActive == pTotal == VisibleCount(es) && Mirrors(ptable[..], es)
      ensures pTotal == |set i | 0 <= i < |es| && es[i].stat.Parsed? && es[i].stat.letter in "RSDZTW"|
      ensures forall k :: 1 <= k <= 6 ==>
                processStates[k] == |set i | 0 <= i < |es| && es[i].stat.Parsed? && es[i].stat.letter == "RSDZTW"[k - 1]|
      ensures listed <= pActive
      ensures listed == pActive <==> forall s :: 0 <= s < HASH_SIZE && ptable[s].state != 0 ==> Passes(ptable[s], sel)
    {
      ScanOutcome(ptable[..], es, sel, dt);
      ScanByLetter(ptable[..], es, sel, dt);
      var total, n := ScanProcesses(es, sel, dt);
      pActive, pTotal, listed := total, total, n;
      assert forall s :: 0 <= s < HASH_SIZE ==> ptable[..][s] == ptable[s];
    }
  }
}
