/** `load_stock_data`: walk the listing of (code, name) pairs in order, fetch
    each instrument's daily bars for the request window, stamp every row with
    the instrument's name and append the batch to the `stock` table. A fetch
    that raises, or an append the table rejects, is caught and the loop goes
    on with the next pair.

    The data provider is a parameter: a function from (symbol, start, end)
    to what the network call returned. */
module Sync {
  import opened Results
  import opened Store

  datatype Instrument = Instrument(code: string, name: string)

  /** What the provider's call returned: a table of daily bars, or an
      exception. */
  datatype Fetch = Fetched(rows: seq<Bar>) | FetchError

  /** The request window, both ends as `YYYYMMDD` text. */
  datatype Window = Window(start: string, end: string)

  type Provider = (string, string, string) -> Fetch

  /** How the loop body ended for one pair. */
  datatype Outcome = Written(rows: nat) | FetchFailed | WriteFailed(error: WriteError)

  function Min(a: nat, b: nat): nat
  {
    if a < b then a else b
  }

  /** Python's `zip`: pairs up to the shorter list, the i-th code with the
      i-th name. */
  function Zip(codes: seq<string>, names: seq<string>): (ps: seq<Instrument>)
    ensures |ps| == Min(|codes|, |names|)
    ensures forall i :: 0 <= i < |ps| ==> ps[i] == Instrument(codes[i], names[i])
  {
    if codes == [] || names == [] then []
    else [Instrument(codes[0], names[0])] + Zip(codes[1..], names[1..])
  }

  /** `df['股票名称'] = name`: every row carries the name; nothing else in a
      row changes. */
  function Stamp(rows: seq<Bar>, name: string): (r: seq<Bar>)
    ensures |r| == |rows|
    ensures forall i :: 0 <= i < |r| ==>
              r[i].name == Some(name) && KeyOf(r[i]) == KeyOf(rows[i])
              && r[i].(name := rows[i].name) == rows[i]
  {
    seq(|rows|, i requires 0 <= i < |rows| => rows[i].(name := Some(name)))
  }

  /** One pass of the loop body, the `except` branch included. */
  function Step(t: Table, inst: Instrument, f: Fetch): (r: (Table, Outcome))
    ensures r.1.FetchFailed? <==> f.FetchError?
    ensures r.1.Written? <==> f.Fetched? && Insert(t, Stamp(f.rows, inst.name)).Ok?
    ensures !r.1.Written? ==> r.0 == t
  {
    match f
    case FetchError => (t, FetchFailed)
    case Fetched(rows) =>
      match Insert(t, Stamp(rows, inst.name))
      case Ok(t') => (t', Written(|rows|))
      case Err(e) => (t, WriteFailed(e))
  }

  /** A fetched batch that repeats the key of a stored bar is rejected whole:
      the outcome is a write failure and the table keeps none of the batch's
      rows, not even the ones with new keys. */
  lemma StoredBarRejectsBatch(t: Table, inst: Instrument, f: Fetch, j: nat)
    requires f.Fetched? && j < |f.rows| && KeyOf(f.rows[j]) in t
    ensures Step(t, inst, f).1.WriteFailed? && Step(t, inst, f).0 == t
  {
    var stamped := Stamp(f.rows, inst.name);
    assert KeyOf(stamped[j]) in t;
  }

  datatype SyncResult = SyncResult(table: Table, log: seq<Outcome>)

  /** The whole loop over `ps`: the table it leaves and one outcome per pair,
      in listing order. */
  function Run(t: Table, ps: seq<Instrument>, fetch: Provider, w: Window): (r: SyncResult)
    ensures |r.log| == |ps|
    decreases |ps|
  {
    if ps == [] then SyncResult(t, [])
    else
      var prev := Run(t, ps[..|ps| - 1], fetch, w);
      var last := ps[|ps| - 1];
      var step := Step(prev.table, last, fetch(last.code, w.start, w.end));
      SyncResult(step.0, prev.log + [step.1])
  }

  function CountWritten(log: seq<Outcome>): (n: nat)
    ensures n <= |log|
  {
    if log == [] then 0
    else CountWritten(log[..|log| - 1]) + (if log[|log| - 1].Written? then 1 else 0)
  }

  /** The loop of `load_stock_data`. Returns the table it leaves and the
      tally of pairs written and pairs skipped. */
  method LoadStockData(codes: seq<string>, names: seq<string>, w: Window, fetch: Provider, t0: Table)
    returns (t: Table, written: nat, failed: nat)
    ensures t == Run(t0, Zip(codes, names), fetch, w).table
    ensures written == CountWritten(Run(t0, Zip(codes, names), fetch, w).log)
    ensures written + failed == Min(|codes|, |names|)
  {
    ghost var ps := Zip(codes, names);
    var n := Min(|codes|, |names|);
    t, written, failed := t0, 0, 0;
    for i := 0 to n
      invariant t == Run(t0, ps[..i], fetch, w).table
      invariant written == CountWritten(Run(t0, ps[..i], fetch, w).log)
      invariant written + failed == i
    {
      var symbol, name := codes[i], names[i];
      assert ps[i] == Instrument(symbol, name);
      var f := fetch(symbol, w.start, w.end);
      RunSnoc(t0, ps, fetch, w, i);
      match f
      case FetchError =>
        assert Step(t, ps[i], f) == (t, FetchFailed);
        failed := failed + 1;
      case Fetched(rows) =>
        var stamped := Stamp(rows, name);
        var inserted := Insert(t, stamped);
        match inserted
        case Ok(t') =>
          assert Step(t, ps[i], f) == (t', Written(|rows|));
          t := t';
          written := written + 1;
        case Err(e) =>
          assert Step(t, ps[i], f) == (t, WriteFailed(e));
          failed := failed + 1;
    }
    assert ps[..n] == ps;
  }

  /** One more pair extends the run by one loop body. */
  lemma RunSnoc(t: Table, ps: seq<Instrument>, fetch: Provider, w: Window, i: nat)
    requires i < |ps|
    ensures var prev := Run(t, ps[..i], fetch, w);
            var step := Step(prev.table, ps[i], fetch(ps[i].code, w.start, w.end));
            Run(t, ps[..i + 1], fetch, w) == SyncResult(step.0, prev.log + [step.1])
            && CountWritten(prev.log + [step.1]) == CountWritten(prev.log) + (if step.1.Written? then 1 else 0)
  {
    assert ps[..i + 1][..i] == ps[..i];
    var prev := Run(t, ps[..i], fetch, w);
    var step := Step(prev.table, ps[i], fetch(ps[i].code, w.start, w.end));
    assert (prev.log + [step.1])[..|prev.log|] == prev.log;
  }

  // ---------------------------------------------------------------------
  // Properties of the loop.

  /** Running over `a + b` is running over `a`, then over `b` from where `a`
      left the table. */
  lemma {:induction false} RunSplit(t: Table, a: seq<Instrument>, b: seq<Instrument>, fetch: Provider, w: Window)
    ensures Run(t, a + b, fetch, w).table == Run(Run(t, a, fetch, w).table, b, fetch, w).table
    ensures Run(t, a + b, fetch, w).log == Run(t, a, fetch, w).log + Run(Run(t, a, fetch, w).table, b, fetch, w).log
    decreases |b|
  {
    if b == [] {
      assert a + b == a;
    } else {
      var b' := b[..|b| - 1];
      assert (a + b)[..|a + b| - 1] == a + b';
      assert (a + b)[|a + b| - 1] == b[|b| - 1];
      RunSplit(t, a, b', fetch, w);
    }
  }

  /** The i-th outcome is the loop body run on the i-th pair against the table
      the earlier pairs left: every pair is attempted, whatever happened
      before it. */
  lemma RunLogAt(t: Table, ps: seq<Instrument>, fetch: Provider, w: Window, i: nat)
    requires i < |ps|
    ensures Run(t, ps, fetch, w).log[i]
            == Step(Run(t, ps[..i], fetch, w).table, ps[i], fetch(ps[i].code, w.start, w.end)).1
  {
    RunSplit(t, ps[..i + 1], ps[i + 1..], fetch, w);
    assert ps[..i + 1] + ps[i + 1..] == ps;
    assert ps[..i + 1][..i] == ps[..i];
  }

  /** Whether a pair counts as a fetch failure depends on the provider alone,
      never on the other pairs. */
  lemma FetchFailureIsLocal(t: Table, ps: seq<Instrument>, fetch: Provider, w: Window, i: nat)
    requires i < |ps|
    ensures Run(t, ps, fetch, w).log[i].FetchFailed? <==> fetch(ps[i].code, w.start, w.end).FetchError?
  {
    RunLogAt(t, ps, fetch, w, i);
  }

  /** Writes only append: every row stored before the run is still stored,
      unchanged, after it. */
  lemma {:induction false} RunAppendOnly(t: Table, ps: seq<Instrument>, fetch: Provider, w: Window)
    ensures forall k :: k in t ==> k in Run(t, ps, fetch, w).table && Run(t, ps, fetch, w).table[k] == t[k]
    decreases |ps|
  {
    if ps != [] {
      RunAppendOnly(t, ps[..|ps| - 1], fetch, w);
    }
  }

  /** No two stored rows share (日期, 股票代码) after the run. */
  lemma {:induction false} RunKeepsWellKeyed(t: Table, ps: seq<Instrument>, fetch: Provider, w: Window)
    requires WellKeyed(t)
    ensures WellKeyed(Run(t, ps, fetch, w).table)
    decreases |ps|
  {
    if ps != [] {
      var prev := Run(t, ps[..|ps| - 1], fetch, w);
      RunKeepsWellKeyed(t, ps[..|ps| - 1], fetch, w);
      var last := ps[|ps| - 1];
      var f := fetch(last.code, w.start, w.end);
      if f.Fetched? && Insert(prev.table, Stamp(f.rows, last.name)).Ok? {
        InsertKeepsWellKeyed(prev.table, Stamp(f.rows, last.name));
      }
    }
  }

  /** Every row the run added is one of the stamped rows fetched for some
      pair whose batch went in: the run stores nothing outside the written
      batches, and each new row carries its pair's name in 股票名称. */
  lemma {:induction false} RunNewRowsNamed(t: Table, ps: seq<Instrument>, fetch: Provider, w: Window, k: Key)
    requires k in Run(t, ps, fetch, w).table && k !in t
    ensures exists i, j :: 0 <= i < |ps| && Run(t, ps, fetch, w).log[i].Written?
                           && fetch(ps[i].code, w.start, w.end).Fetched?
                           && 0 <= j < |fetch(ps[i].code, w.start, w.end).rows|
                           && Run(t, ps, fetch, w).table[k] == Stamp(fetch(ps[i].code, w.start, w.end).rows, ps[i].name)[j]
                           && Run(t, ps, fetch, w).table[k].name == Some(ps[i].name)
    decreases |ps|
  {
    if ps != [] {
      var r := Run(t, ps, fetch, w);
      var init := ps[..|ps| - 1];
      var prev := Run(t, init, fetch, w);
      var last := ps[|ps| - 1];
      var f := fetch(last.code, w.start, w.end);
      var step := Step(prev.table, last, f);
      assert r.table == step.0 && r.log == prev.log + [step.1];
      if k in prev.table {
        RunNewRowsNamed(t, init, fetch, w, k);
        var i, j :| 0 <= i < |init| && prev.log[i].Written?
                    && fetch(init[i].code, w.start, w.end).Fetched?
                    && 0 <= j < |fetch(init[i].code, w.start, w.end).rows|
                    && prev.table[k] == Stamp(fetch(init[i].code, w.start, w.end).rows, init[i].name)[j]
                    && prev.table[k].name == Some(init[i].name);
        assert r.table[k] == prev.table[k];
        assert r.log[i] == prev.log[i] && ps[i] == init[i];
      } else {
        assert step.1.Written?;
        var stamped := Stamp(f.rows, last.name);
        var j :| 0 <= j < |stamped| && KeyOf(stamped[j]) == k;
        assert r.table[k] == stamped[j];
        assert r.log[|ps| - 1].Written? && j < |f.rows|;
        assert stamped[j].name == Some(last.name);
      }
    }
  }

  /** A loop body that reports `Written` has stored its whole stamped batch,
      each row under its own key. */
  lemma StepStoresBatch(t: Table, inst: Instrument, f: Fetch)
    requires Step(t, inst, f).1.Written?
    ensures f.Fetched?
    ensures forall j :: 0 <= j < |f.rows| ==>
              var row := Stamp(f.rows, inst.name)[j];
              KeyOf(row) in Step(t, inst, f).0 && Step(t, inst, f).0[KeyOf(row)] == row
  {
    var stamped := Stamp(f.rows, inst.name);
    assert Step(t, inst, f).0 == Insert(t, stamped).value;
  }

  /** A pair reported as written has its whole stamped batch in the table
      the run leaves right after that pair. */
  lemma WrittenBatchStoredAtOnce(t: Table, ps: seq<Instrument>, fetch: Provider, w: Window, i: nat)
    requires i < |ps| && Run(t, ps, fetch, w).log[i].Written?
    ensures var f := fetch(ps[i].code, w.start, w.end);
            f.Fetched?
            && forall j :: 0 <= j < |f.rows| ==>
                 var row := Stamp(f.rows, ps[i].name)[j];
                 KeyOf(row) in Run(t, ps[..i + 1], fetch, w).table
                 && Run(t, ps[..i + 1], fetch, w).table[KeyOf(row)] == row
  {
    var f := fetch(ps[i].code, w.start, w.end);
    var before := Run(t, ps[..i], fetch, w).table;
    RunLogAt(t, ps, fetch, w, i);
    StepStoresBatch(before, ps[i], f);
    RunSnoc(t, ps, fetch, w, i);
  }

  /** A pair reported as written has its whole stamped batch in the final
      table, each row under its own key. */
  lemma WrittenBatchStored(t: Table, ps: seq<Instrument>, fetch: Provider, w: Window, i: nat)
    requires i < |ps| && Run(t, ps, fetch, w).log[i].Written?
    ensures var f := fetch(ps[i].code, w.start, w.end);
            f.Fetched?
            && forall j :: 0 <= j < |f.rows| ==>
                 var row := Stamp(f.rows, ps[i].name)[j];
                 KeyOf(row) in Run(t, ps, fetch, w).table && Run(t, ps, fetch, w).table[KeyOf(row)] == row
  {
    WrittenBatchStoredAtOnce(t, ps, fetch, w, i);
    var mid := Run(t, ps[..i + 1], fetch, w).table;
    RunSplit(t, ps[..i + 1], ps[i + 1..], fetch, w);
    assert ps[..i + 1] + ps[i + 1..] == ps;
    RunAppendOnly(mid, ps[i + 1..], fetch, w);
    assert Run(t, ps, fetch, w).table == Run(mid, ps[i + 1..], fetch, w).table;
  }

  /** Failure isolation: a pair whose fetch fails leaves no trace but its
      own `FetchFailed` outcome. The run over the listing with that pair in
      it stores exactly what the run without it stores, and reports the same
      outcomes for every other pair. */
  lemma SkipFailedPair(t: Table, a: seq<Instrument>, p: Instrument, b: seq<Instrument>, fetch: Provider, w: Window)
    requires fetch(p.code, w.start, w.end).FetchError?
    ensures Run(t, a + [p] + b, fetch, w).table == Run(t, a + b, fetch, w).table
    ensures Run(t, a + [p] + b, fetch, w).log
            == Run(t, a, fetch, w).log + [FetchFailed] + Run(Run(t, a, fetch, w).table, b, fetch, w).log
    ensures Run(t, a + b, fetch, w).log
            == Run(t, a, fetch, w).log + Run(Run(t, a, fetch, w).table, b, fetch, w).log
  {
    RunSplit(t, a + [p], b, fetch, w);
    RunSplit(t, a, [p], fetch, w);
    RunSplit(t, a, b, fetch, w);
    assert Run(Run(t, a, fetch, w).table, [p], fetch, w).log == [FetchFailed];
  }

  /** A run over one pair is one loop body. */
  lemma RunSingle(t: Table, p: Instrument, fetch: Provider, w: Window)
    ensures Run(t, [p], fetch, w).log == [Step(t, p, fetch(p.code, w.start, w.end)).1]
    ensures Run(t, [p], fetch, w).table == Step(t, p, fetch(p.code, w.start, w.end)).0
  {
    assert [p][..0] == [];
  }

  /** Three instruments, the provider failing for the second: the first and
      the third are attempted as if the second were not listed, and when
      their batches go in, two are written and exactly one failure is
      reported. */
  lemma MiddleFailureScenario(t: Table, p1: Instrument, p2: Instrument, p3: Instrument, fetch: Provider, w: Window)
    requires fetch(p2.code, w.start, w.end).FetchError?
    ensures var s1 := Step(t, p1, fetch(p1.code, w.start, w.end));
            var s3 := Step(s1.0, p3, fetch(p3.code, w.start, w.end));
            var log := Run(t, [p1, p2, p3], fetch, w).log;
            && log == [s1.1, FetchFailed, s3.1]
            && (s1.1.Written? && s3.1.Written? ==>
                  && CountWritten(log) == 2
                  && forall i :: 0 <= i < |log| ==> (!log[i].Written? <==> i == 1))
  {
    SkipFailedPair(t, [p1], p2, [p3], fetch, w);
    assert [p1] + [p2] + [p3] == [p1, p2, p3];
    RunSingle(t, p1, fetch, w);
    var t1 := Run(t, [p1], fetch, w).table;
    RunSingle(t1, p3, fetch, w);
    var o1 := Step(t, p1, fetch(p1.code, w.start, w.end)).1;
    var o3 := Step(t1, p3, fetch(p3.code, w.start, w.end)).1;
    assert Run(t, [p1, p2, p3], fetch, w).log == [o1, FetchFailed, o3];
    CountWrittenOfThree(o1, FetchFailed, o3);
  }

  /** The written count of a three-outcome log, outcome by outcome. */
  lemma CountWrittenOfThree(a: Outcome, b: Outcome, c: Outcome)
    ensures CountWritten([a, b, c])
            == (if a.Written? then 1 else 0) + (if b.Written? then 1 else 0) + (if c.Written? then 1 else 0)
  {
    assert [a, b, c][..2] == [a, b] && [a, b][..1] == [a] && [a][..0] == [];
    assert CountWritten([a]) == (if a.Written? then 1 else 0);
    assert CountWritten([a, b]) == CountWritten([a]) + (if b.Written? then 1 else 0);
  }

  /** The tally adds up: pairs written and pairs skipped are all the pairs,
      and the failures are exactly the outcomes that are not `Written`. */
  lemma {:induction false} TallyComplete(log: seq<Outcome>)
    ensures CountWritten(log) + |set i | 0 <= i < |log| && !log[i].Written?| == |log|
  {
    if log != [] {
      var init := log[..|log| - 1];
      TallyComplete(init);
      var sInit := set i | 0 <= i < |init| && !init[i].Written?;
      var s := set i | 0 <= i < |log| && !log[i].Written?;
      if log[|log| - 1].Written? {
        assert s == sInit;
      } else {
        assert s == sInit + {|log| - 1};
      }
    }
  }
}
