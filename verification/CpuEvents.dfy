/** The CPU event folds of lib_src/json/dap_json.c: fjson_GetLengthAlarmCpuUsage (statuses 5 and 6) and
    fjson_GetLengthControlCpuUsage (statuses 2 and 3), which differ in their two statuses only. */
module CpuEvents {
  import opened CStrings

  datatype Sample = Sample(status: string, isDapAgent: int)

  /** A sample of this agent with the given status. */
  predicate Has(s: Sample, status: int) {
    Atoi(s.status) == status && s.isDapAgent == 0
  }

  ghost predicate Quiet(h: seq<Sample>, i: nat, j: nat, on: int, off: int)
    requires j <= |h|
  {
    forall k :: i <= k < j ==> !Has(h[k], on) && !Has(h[k], off)
  }

  /** The last event of the history has the given status. */
  ghost predicate LastIs(h: seq<Sample>, status: int, on: int, off: int) {
    exists k :: 0 <= k < |h| && Has(h[k], status) && Quiet(h, k + 1, |h|, on, off)
  }

  /** The first event of the history has the given status. */
  ghost predicate FirstIs(h: seq<Sample>, status: int, on: int, off: int) {
    exists k :: 0 <= k < |h| && Has(h[k], status) && Quiet(h, 0, k, on, off)
  }

  ghost predicate Any(h: seq<Sample>, status: int) {
    exists k :: 0 <= k < |h| && Has(h[k], status)
  }

  /** Without a body the last event of the history decides. */
  method HistoryFold(h: seq<Sample>, on: int, off: int) returns (rc: int)
    requires on != off
    ensures rc in {-1, 0, 1}
    ensures rc == 1 <==> LastIs(h, on, on, off)
    ensures rc == -1 <==> LastIs(h, off, on, off)
  {
    rc := 0;
    ghost var at := -1;
    for i := 0 to |h|
      invariant -1 <= at < i && rc == (if at < 0 then 0 else if Has(h[at], on) then 1 else -1)
      invariant at >= 0 ==> Has(h[at], on) || Has(h[at], off)
      invariant Quiet(h, at + 1, i, on, off)
    {
      var status := Atoi(h[i].status);
      if status == on && h[i].isDapAgent == 0 {
        rc, at := 1, i;
      }
      if status == off && h[i].isDapAgent == 0 {
        rc, at := -1, i;
      }
    }
    LastOnly(h, at, on, off);
  }

  lemma LastOnly(h: seq<Sample>, at: int, on: int, off: int)
    requires on != off && -1 <= at < |h| && Quiet(h, at + 1, |h|, on, off)
    requires at >= 0 ==> Has(h[at], on) || Has(h[at], off)
    ensures LastIs(h, on, on, off) <==> at >= 0 && Has(h[at], on)
    ensures LastIs(h, off, on, off) <==> at >= 0 && Has(h[at], off)
  {
  }

  /** With a body, an on-event in it decides; without one, the first event of the history does. */
  method BodyFold(body: seq<Sample>, h: seq<Sample>, on: int, off: int) returns (rc: int)
    requires on != off
    ensures rc in {-1, 0, 1}
    ensures rc == 1 <==> Any(body, on) || FirstIs(h, on, on, off)
    ensures rc == -1 <==> !Any(body, on) && FirstIs(h, off, on, off)
  {
    rc := 0;
    for i := 0 to |body|
      invariant rc == if exists k :: 0 <= k < i && Has(body[k], on) then 1 else 0
    {
      if Atoi(body[i].status) == on && body[i].isDapAgent == 0 {
        rc := 1;
      }
    }
    if rc == 0 {
      rc := FirstEvent(h, on, off);
    }
  }

  /** The history loop of the body case, entered with 0. */
  method FirstEvent(h: seq<Sample>, on: int, off: int) returns (rc: int)
    requires on != off
    ensures rc in {-1, 0, 1}
    ensures rc == 1 <==> FirstIs(h, on, on, off)
    ensures rc == -1 <==> FirstIs(h, off, on, off)
  {
    rc := 0;
    ghost var at: nat := |h|;
    for i := 0 to |h|
      invariant rc == if at >= |h| then 0 else if Has(h[at], on) then 1 else -1
      invariant at == |h| ==> Quiet(h, 0, i, on, off)
      invariant at < |h| ==> at < i && Quiet(h, 0, at, on, off) && (Has(h[at], on) || Has(h[at], off))
      invariant at <= |h|
    {
      var status := Atoi(h[i].status);
      if rc == 0 {
        if status == off && h[i].isDapAgent == 0 {
          rc, at := -1, i;
        }
        if status == on && h[i].isDapAgent == 0 {
          rc, at := 1, i;
        }
      }
    }
    FirstOnly(h, at, on, off);
  }

  lemma FirstOnly(h: seq<Sample>, at: nat, on: int, off: int)
    requires on != off && at <= |h| && Quiet(h, 0, at, on, off)
    requires at < |h| ==> Has(h[at], on) || Has(h[at], off)
    ensures FirstIs(h, on, on, off) <==> at < |h| && Has(h[at], on)
    ensures FirstIs(h, off, on, off) <==> at < |h| && Has(h[at], off)
  {
  }

  /** Both functions of the source. An event of the history is never lost: the answer is 0 only when
      there is none, and no on-event in the body. */
  method CpuEvent(body: seq<Sample>, h: seq<Sample>, on: int, off: int) returns (rc: int)
    requires on != off
    ensures rc in {-1, 0, 1}
    ensures rc == 1 <==> if body == [] then LastIs(h, on, on, off) else Any(body, on) || FirstIs(h, on, on, off)
    ensures rc == -1 <==> if body == [] then LastIs(h, off, on, off) else !Any(body, on) && FirstIs(h, off, on, off)
    ensures rc == 0 <==> !Any(body, on) && !Any(h, on) && !Any(h, off)
  {
    SomeEvent(h, on, off);
    if body == [] {
      rc := HistoryFold(h, on, off);
    } else {
      rc := BodyFold(body, h, on, off);
    }
  }

  lemma {:induction false} LastAfter(h: seq<Sample>, k: nat, on: int, off: int)
    requires k < |h| && (Has(h[k], on) || Has(h[k], off))
    ensures LastIs(h, on, on, off) || LastIs(h, off, on, off)
    decreases |h| - k
  {
    if !Quiet(h, k + 1, |h|, on, off) {
      var j :| k + 1 <= j < |h| && (Has(h[j], on) || Has(h[j], off));
      LastAfter(h, j, on, off);
    }
  }

  lemma {:induction false} FirstBefore(h: seq<Sample>, k: nat, on: int, off: int)
    requires k < |h| && (Has(h[k], on) || Has(h[k], off))
    ensures FirstIs(h, on, on, off) || FirstIs(h, off, on, off)
    decreases k
  {
    if !Quiet(h, 0, k, on, off) {
      var j :| 0 <= j < k && (Has(h[j], on) || Has(h[j], off));
      FirstBefore(h, j, on, off);
    }
  }

  /** A history with an event has a first one and a last one. */
  lemma SomeEvent(h: seq<Sample>, on: int, off: int)
    ensures Any(h, on) || Any(h, off) <==> LastIs(h, on, on, off) || LastIs(h, off, on, off)
    ensures Any(h, on) || Any(h, off) <==> FirstIs(h, on, on, off) || FirstIs(h, off, on, off)
  {
    if Any(h, on) || Any(h, off) {
      var k :| 0 <= k < |h| && (Has(h[k], on) || Has(h[k], off));
      LastAfter(h, k, on, off);
      FirstBefore(h, k, on, off);
    }
  }

  // ---------------------------------------------------------------- the two functions

  /** fjson_GetLengthAlarmCpuUsage: status 5 sets the alarm and status 6 takes it back, unless they come from the
      agent itself. */
  method AlarmCpuUsage(body: seq<Sample>, h: seq<Sample>) returns (rc: int)
    ensures rc in {-1, 0, 1}
    ensures body == [] ==>
              && (rc == 1 <==>
                    (exists k :: 0 <= k < |h| && Atoi(h[k].status) == 5 && h[k].isDapAgent == 0
                          && forall j :: k < j < |h| && h[j].isDapAgent == 0 ==> Atoi(h[j].status) != 5 && Atoi(h[j].status) != 6))
              && (rc == -1 <==>
                    (exists k :: 0 <= k < |h| && Atoi(h[k].status) == 6 && h[k].isDapAgent == 0
                          && forall j :: k < j < |h| && h[j].isDapAgent == 0 ==> Atoi(h[j].status) != 5 && Atoi(h[j].status) != 6))
    ensures body != [] ==>
              && (rc == 1 <==>
                    || (exists k :: 0 <= k < |body| && Atoi(body[k].status) == 5 && body[k].isDapAgent == 0)
                    || (exists k :: 0 <= k < |h| && Atoi(h[k].status) == 5 && h[k].isDapAgent == 0
                          && forall j :: 0 <= j < k && h[j].isDapAgent == 0 ==> Atoi(h[j].status) != 5 && Atoi(h[j].status) != 6))
              && (rc == -1 <==>
                    && !(exists k :: 0 <= k < |body| && Atoi(body[k].status) == 5 && body[k].isDapAgent == 0)
                    && (exists k :: 0 <= k < |h| && Atoi(h[k].status) == 6 && h[k].isDapAgent == 0
                          && forall j :: 0 <= j < k && h[j].isDapAgent == 0 ==> Atoi(h[j].status) != 5 && Atoi(h[j].status) != 6))
  {
    rc := CpuEvent(body, h, 5, 6);
  }

  /** fjson_GetLengthControlCpuUsage: the same for the statuses 2 and 3. */
  method ControlCpuUsage(body: seq<Sample>, h: seq<Sample>) returns (rc: int)
    ensures rc in {-1, 0, 1}
    ensures body == [] ==>
              && (rc == 1 <==>
                    (exists k :: 0 <= k < |h| && Atoi(h[k].status) == 2 && h[k].isDapAgent == 0
                          && forall j :: k < j < |h| && h[j].isDapAgent == 0 ==> Atoi(h[j].status) != 2 && Atoi(h[j].status) != 3))
              && (rc == -1 <==>
                    (exists k :: 0 <= k < |h| && Atoi(h[k].status) == 3 && h[k].isDapAgent == 0
                          && forall j :: k < j < |h| && h[j].isDapAgent == 0 ==> Atoi(h[j].status) != 2 && Atoi(h[j].status) != 3))
    ensures body != [] ==>
              && (rc == 1 <==>
                    || (exists k :: 0 <= k < |body| && Atoi(body[k].status) == 2 && body[k].isDapAgent == 0)
                    || (exists k :: 0 <= k < |h| && Atoi(h[k].status) == 2 && h[k].isDapAgent == 0
                          && forall j :: 0 <= j < k && h[j].isDapAgent == 0 ==> Atoi(h[j].status) != 2 && Atoi(h[j].status) != 3))
              && (rc == -1 <==>
                    && !(exists k :: 0 <= k < |body| && Atoi(body[k].status) == 2 && body[k].isDapAgent == 0)
                    && (exists k :: 0 <= k < |h| && Atoi(h[k].status) == 3 && h[k].isDapAgent == 0
                          && forall j :: 0 <= j < k && h[j].isDapAgent == 0 ==> Atoi(h[j].status) != 2 && Atoi(h[j].status) != 3))
  {
    rc := CpuEvent(body, h, 2, 3);
  }
}
