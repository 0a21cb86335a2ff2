/** The audit filter compiler: a query record becomes conditions with numbered
    placeholders and the parameters they refer to. */
module AuditQuery {
  import opened Prelude

  type I64 = x: int | I64_MIN <= x <= I64_MAX
  type U16 = x: int | 0 <= x < 0x1_0000

  datatype Row = Row(
    id: nat, ts: I64, requestId: string, verb: string, path: string, status: U16,
    durationMs: I64, remoteAddr: Option<string>, userAgent: Option<string>, userId: Option<string>)

  datatype SortDir = Desc | Asc

  datatype Query = Query(
    page: nat, perPage: nat,
    verb: Option<string>, path: Option<string>, status: Option<U16>,
    fromTs: Option<I64>, toTs: Option<I64>, requestId: Option<string>,
    sortDir: SortDir)

  // ----- the statements sent to the database -----

  datatype Value = Int(n: int) | Text(s: string)

  datatype Subject = One | Verb | Path | Status | Ts | RequestId

  /** `subject = ?slot`, or `INSTR(path, ?slot) > 0` for the path. */
  datatype Cond = Cond(subject: Subject, slot: nat)

  datatype Compiled = Compiled(conditions: seq<Cond>, params: seq<Value>)

  /** Whether the needle begins some suffix of the text; the empty needle always does. */
  predicate Occurs(needle: string, hay: string) {
    needle <= hay || (hay != [] && Occurs(needle, hay[1..]))
  }

  /** The text reads as the needle from position i on. */
  ghost predicate ReadsAt(needle: string, hay: string, i: int) {
    0 <= i <= |hay| - |needle| && forall k {:trigger needle[k]} | 0 <= k < |needle| :: hay[i + k] == needle[k]
  }

  /** The needle occurs exactly when the text reads as it from some position on. */
  lemma {:induction false} OccursIsSomewhere(needle: string, hay: string)
    ensures Occurs(needle, hay) <==> exists i :: ReadsAt(needle, hay, i)
  {
    assert needle <= hay <==> ReadsAt(needle, hay, 0) by {
      if ReadsAt(needle, hay, 0) {
        assert hay[..|needle|] == needle;
      }
    }
    if hay != [] {
      OccursIsSomewhere(needle, hay[1..]);
      forall i: int | i > 0
        ensures ReadsAt(needle, hay, i) <==> ReadsAt(needle, hay[1..], i - 1)
      {
      }
      forall i | ReadsAt(needle, hay[1..], i)
        ensures ReadsAt(needle, hay, i + 1)
      {
      }
    }
  }

  predicate Passes(subject: Subject, v: Value, row: Row) {
    match subject
    case One => v == Int(1)
    case Verb => v == Text(row.verb)
    case Path => v.Text? && Occurs(v.s, row.path)
    case Status => v == Int(row.status)
    case Ts => v == Int(row.ts)
    case RequestId => v == Text(row.requestId)
  }

  /** A condition under the parameters bound to the statement; a slot with no
      parameter makes it fail. */
  predicate Eval(c: Cond, params: seq<Value>, row: Row) {
    1 <= c.slot <= |params| && Passes(c.subject, params[c.slot - 1], row)
  }

  predicate Holds(w: Compiled, row: Row) {
    forall k | 0 <= k < |w.conditions| :: Eval(w.conditions[k], w.params, row)
  }

  // ----- the compiler -----

  function Pushed(w: Compiled, subject: Subject, v: Value): Compiled {
    Compiled(w.conditions + [Cond(subject, |w.params| + 1)], w.params + [v])
  }

  function PushedText(w: Compiled, subject: Subject, v: Option<string>): Compiled {
    if v.Some? then Pushed(w, subject, Text(v.value)) else w
  }

  function PushedInt(w: Compiled, subject: Subject, v: Option<int>): Compiled {
    if v.Some? then Pushed(w, subject, Int(v.value)) else w
  }

  /** The always-true condition and the filters up to the status. */
  function WhereHead(q: Query): Compiled {
    var w0 := Compiled([Cond(One, 1)], [Int(1)]);
    var w1 := PushedText(w0, Verb, q.verb);
    var w2 := PushedText(w1, Path, q.path);
    PushedInt(w2, Status, q.status)
  }

  function Where(q: Query): Compiled {
    var w4 := PushedInt(WhereHead(q), Ts, q.fromTs);
    var w5 := PushedInt(w4, Ts, q.toTs);
    PushedText(w5, RequestId, q.requestId)
  }

  /** The body of the `add_param!` macro. */
  method AddParam(conditions: seq<Cond>, params: seq<Value>, idx: nat, subject: Subject, v: Value)
    returns (conditions': seq<Cond>, params': seq<Value>, idx': nat)
    requires idx == |params|
    ensures Compiled(conditions', params') == Pushed(Compiled(conditions, params), subject, v)
    ensures idx' == |params'|
  {
    idx' := idx + 1;
    conditions' := conditions + [Cond(subject, idx')];
    params' := params + [v];
  }

  method AddText(conditions: seq<Cond>, params: seq<Value>, idx: nat, subject: Subject, v: Option<string>)
    returns (conditions': seq<Cond>, params': seq<Value>, idx': nat)
    requires idx == |params|
    ensures Compiled(conditions', params') == PushedText(Compiled(conditions, params), subject, v)
    ensures idx' == |params'|
  {
    conditions', params', idx' := conditions, params, idx;
    if v.Some? {
      conditions', params', idx' := AddParam(conditions, params, idx, subject, Text(v.value));
    }
  }

  method AddInt(conditions: seq<Cond>, params: seq<Value>, idx: nat, subject: Subject, v: Option<int>)
    returns (conditions': seq<Cond>, params': seq<Value>, idx': nat)
    requires idx == |params|
    ensures Compiled(conditions', params') == PushedInt(Compiled(conditions, params), subject, v)
    ensures idx' == |params'|
  {
    conditions', params', idx' := conditions, params, idx;
    if v.Some? {
      conditions', params', idx' := AddParam(conditions, params, idx, subject, Int(v.value));
    }
  }

  method BuildWhere(q: Query) returns (conditions: seq<Cond>, params: seq<Value>, nextIdx: nat)
    ensures Compiled(conditions, params) == Where(q)
    ensures nextIdx == |params| + 1
  {
    conditions := [Cond(One, 1)];
    params := [];
    var idx := 1;
    params := params + [Int(1)];
    conditions, params, idx := AddText(conditions, params, idx, Verb, q.verb);
    conditions, params, idx := AddText(conditions, params, idx, Path, q.path);
    conditions, params, idx := AddInt(conditions, params, idx, Status, q.status);
    assert Compiled(conditions, params) == WhereHead(q);
    conditions, params, idx := AddInt(conditions, params, idx, Ts, q.fromTs);
    conditions, params, idx := AddInt(conditions, params, idx, Ts, q.toTs);
    conditions, params, idx := AddText(conditions, params, idx, RequestId, q.requestId);
    nextIdx := idx + 1;
  }

  // ----- what the compiled clause means -----

  /** The k-th condition refers to the k-th parameter. */
  ghost predicate Aligned(w: Compiled) {
    |w.conditions| == |w.params| && forall k | 0 <= k < |w.conditions| :: w.conditions[k].slot == k + 1
  }

  lemma PushMeans(w: Compiled, subject: Subject, v: Value, row: Row)
    requires Aligned(w)
    ensures Aligned(Pushed(w, subject, v))
    ensures Holds(Pushed(w, subject, v), row) <==> Holds(w, row) && Passes(subject, v, row)
  {
    var w' := Pushed(w, subject, v);
    assert forall k | 0 <= k < |w.conditions| ::
        w'.conditions[k] == w.conditions[k] && w'.params[k] == w.params[k];
    assert Eval(w'.conditions[|w.conditions|], w'.params, row) == Passes(subject, v, row);
  }

  lemma PushTextMeans(w: Compiled, subject: Subject, v: Option<string>, row: Row)
    requires Aligned(w)
    ensures Aligned(PushedText(w, subject, v))
    ensures Holds(PushedText(w, subject, v), row) <==>
            Holds(w, row) && (v.Some? ==> Passes(subject, Text(v.value), row))
  {
    if v.Some? {
      PushMeans(w, subject, Text(v.value), row);
    }
  }

  lemma PushIntMeans(w: Compiled, subject: Subject, v: Option<int>, row: Row)
    requires Aligned(w)
    ensures Aligned(PushedInt(w, subject, v))
    ensures Holds(PushedInt(w, subject, v), row) <==>
            Holds(w, row) && (v.Some? ==> Passes(subject, Int(v.value), row))
  {
    if v.Some? {
      PushMeans(w, subject, Int(v.value), row);
    }
  }

  predicate OtherFilters(q: Query, row: Row) {
    && (q.verb.Some? ==> row.verb == q.verb.value)
    && (q.path.Some? ==> Occurs(q.path.value, row.path))
    && (q.status.Some? ==> row.status == q.status.value)
    && (q.requestId.Some? ==> row.requestId == q.requestId.value)
  }

  /** The conjunction of the filters that are set, as the code compares them. */
  predicate Coded(q: Query, row: Row) {
    && OtherFilters(q, row)
    && (q.fromTs.Some? ==> row.ts == q.fromTs.value)
    && (q.toTs.Some? ==> row.ts == q.toTs.value)
  }

  /** The filters as the query record documents them: inclusive time bounds. */
  predicate Documented(q: Query, row: Row) {
    && OtherFilters(q, row)
    && (q.fromTs.Some? ==> q.fromTs.value <= row.ts)
    && (q.toTs.Some? ==> row.ts <= q.toTs.value)
  }

  predicate HeadCoded(q: Query, row: Row) {
    && (q.verb.Some? ==> Passes(Verb, Text(q.verb.value), row))
    && (q.path.Some? ==> Passes(Path, Text(q.path.value), row))
    && (q.status.Some? ==> Passes(Status, Int(q.status.value), row))
  }

  lemma WhereHeadMeans(q: Query, row: Row)
    ensures Aligned(WhereHead(q))
    ensures Holds(WhereHead(q), row) <==> HeadCoded(q, row)
  {
    var w0 := Compiled([Cond(One, 1)], [Int(1)]);
    assert Aligned(w0) && Holds(w0, row);
    var w1 := PushedText(w0, Verb, q.verb);
    PushTextMeans(w0, Verb, q.verb, row);
    var w2 := PushedText(w1, Path, q.path);
    PushTextMeans(w1, Path, q.path, row);
    PushIntMeans(w2, Status, q.status, row);
  }

  predicate TailCoded(q: Query, row: Row) {
    && (q.fromTs.Some? ==> Passes(Ts, Int(q.fromTs.value), row))
    && (q.toTs.Some? ==> Passes(Ts, Int(q.toTs.value), row))
    && (q.requestId.Some? ==> Passes(RequestId, Text(q.requestId.value), row))
  }

  lemma WhereTailMeans(q: Query, w: Compiled, row: Row)
    requires Aligned(w)
    ensures var w' := PushedText(PushedInt(PushedInt(w, Ts, q.fromTs), Ts, q.toTs), RequestId, q.requestId);
            Aligned(w') && (Holds(w', row) <==> Holds(w, row) && TailCoded(q, row))
  {
    var w4 := PushedInt(w, Ts, q.fromTs);
    PushIntMeans(w, Ts, q.fromTs, row);
    var w5 := PushedInt(w4, Ts, q.toTs);
    PushIntMeans(w4, Ts, q.toTs, row);
    PushTextMeans(w5, RequestId, q.requestId, row);
  }

  lemma CodedSplits(q: Query, row: Row)
    ensures Coded(q, row) <==> HeadCoded(q, row) && TailCoded(q, row)
  {
  }

  /** For every filter the conditions and parameters line up, and the clause
      holds of exactly the rows that pass every filter that is set. */
  lemma WhereMeansCoded(q: Query, row: Row)
    ensures Aligned(Where(q))
    ensures Holds(Where(q), row) <==> Coded(q, row)
  {
    WhereHeadMeans(q, row);
    WhereTailMeans(q, WhereHead(q), row);
    CodedSplits(q, row);
  }

  /** When the equalities that are compiled select what the documented bounds
      select: no bounds, two bounds that do not leave an open interval, or one
      bound at the end of the range of timestamps. */
  predicate BoundsAgree(q: Query) {
    match (q.fromTs, q.toTs)
    case (None, None) => true
    case (Some(from), None) => from == I64_MAX
    case (None, Some(to)) => to == I64_MIN
    case (Some(from), Some(to)) => from >= to
  }

  /** A row that passes the other filters, at any time. */
  function WitnessRow(q: Query, ts: I64): (row: Row)
    ensures OtherFilters(q, row) && row.ts == ts
  {
    var path := if q.path.Some? then q.path.value else "";
    Row(1, ts,
        if q.requestId.Some? then q.requestId.value else "",
        if q.verb.Some? then q.verb.value else "",
        path,
        if q.status.Some? then q.status.value else 0,
        0, None, None, None)
  }

  /** The compiled clause has the documented meaning on every row exactly when
      the bounds agree. */
  lemma CodedIsDocumentedIff(q: Query)
    ensures (forall row :: Coded(q, row) == Documented(q, row)) <==> BoundsAgree(q)
  {
    if !BoundsAgree(q) {
      var ts: I64 := match (q.fromTs, q.toTs)
        case (Some(from), None) => from + 1
        case (None, Some(to)) => to - 1
        case (Some(from), Some(to)) => from
        case (None, None) => 0;
      var row := WitnessRow(q, ts);
      assert Coded(q, row) != Documented(q, row);
    }
  }
}
