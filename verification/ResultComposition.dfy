// What one CLI execution reports at its end: token usage merged over result frames that
// may be replayed in any order, and the text composed from several result turns.

module ResultUsage {
  import opened Common

  datatype Field = InputTokens | OutputTokens | ReasoningTokens | CacheReadTokens | CacheWriteTokens

  /** The fields that were reported, with their counts. */
  type Usage = map<Field, nat>

  const FIELDS: seq<Field> := [InputTokens, OutputTokens, ReasoningTokens, CacheReadTokens, CacheWriteTokens]

  lemma FieldsAreAll(f: Field)
    ensures f in FIELDS
  {
    match f
    case InputTokens => assert FIELDS[0] == f;
    case OutputTokens => assert FIELDS[1] == f;
    case ReasoningTokens => assert FIELDS[2] == f;
    case CacheReadTokens => assert FIELDS[3] == f;
    case CacheWriteTokens => assert FIELDS[4] == f;
  }

  function Get(u: Usage, f: Field): nat {
    if f in u then u[f] else 0
  }

  function Max(a: nat, b: nat): nat {
    if a < b then b else a
  }

  /** Field by field the larger count. */
  function Join(a: Usage, b: Usage): Usage {
    map f | f in a.Keys + b.Keys :: Max(Get(a, f), Get(b, f))
  }

  function OrEmpty(u: Option<Usage>): Usage {
    if u.Some? then u.value else map[]
  }

  /** Field by field the sum; a report without fields leaves even an absent total absent. */
  function Add(target: Option<Usage>, delta: Usage): Option<Usage> {
    if delta == map[] then target else Some(Plus(OrEmpty(target), delta))
  }

  function Plus(a: Usage, b: Usage): Usage {
    map f | f in a.Keys + b.Keys :: Get(a, f) + Get(b, f)
  }

  predicate Has(u: Option<Usage>, f: Field) {
    u.Some? && f in u.value
  }

  function Count(u: Option<Usage>, f: Field): nat {
    if Has(u, f) then u.value[f] else 0
  }

  /** Adding adds each count, and reports a field that either side reports. */
  lemma AddFields(target: Option<Usage>, delta: Usage, f: Field)
    ensures Has(Add(target, delta), f) <==> Has(target, f) || f in delta
    ensures Count(Add(target, delta), f) == Count(target, f) + if f in delta then delta[f] else 0
  {}

  lemma GetPlus(a: Usage, b: Usage, f: Field)
    ensures Get(Plus(a, b), f) == Get(a, f) + Get(b, f)
  {}

  lemma PlusCommutes(t: Usage, a: Usage, b: Usage)
    ensures Plus(Plus(t, a), b) == Plus(Plus(t, b), a)
  {
    var ab, ba := Plus(Plus(t, a), b), Plus(Plus(t, b), a);
    assert ab.Keys == ba.Keys;
    forall f | f in ab ensures ab[f] == ba[f] {
      GetPlus(t, a, f);
      GetPlus(t, b, f);
    }
  }

  function Restrict(u: Usage, fields: seq<Field>): Usage {
    map f | f in u && f in fields :: u[f]
  }

  lemma RestrictAll(u: Usage)
    ensures Restrict(u, FIELDS) == u
  {
    forall f | f in u { FieldsAreAll(f); }
  }

  lemma RestrictOneMore(u: Usage, fields: seq<Field>, f: Field)
    requires f !in fields
    ensures Restrict(u, fields + [f]) == if f in u then Restrict(u, fields)[f := u[f]] else Restrict(u, fields)
    ensures f !in Restrict(u, fields)
  {}

  method MergeResultUsage(previous: Option<Usage>, next: Usage) returns (merged: Usage)
    ensures merged == Join(OrEmpty(previous), next)
    ensures forall f :: f in merged <==> Has(previous, f) || f in next
    ensures forall f | f in merged ::
              && (Has(previous, f) ==> previous.value[f] <= merged[f]) && (f in next ==> next[f] <= merged[f])
              && ((Has(previous, f) && merged[f] == previous.value[f]) || (f in next && merged[f] == next[f]))
  {
    merged := OrEmpty(previous);
    for i := 0 to |FIELDS|
      invariant merged == Join(OrEmpty(previous), Restrict(next, FIELDS[..i]))
    {
      var field := FIELDS[i];
      RestrictOneMore(next, FIELDS[..i], field);
      assert FIELDS[..i + 1] == FIELDS[..i] + [field];
      merged := MergeField(previous, next, merged, field, Restrict(next, FIELDS[..i]));
    }
    assert FIELDS[..|FIELDS|] == FIELDS;
    RestrictAll(next);
  }

  method MergeField(previous: Option<Usage>, next: Usage, soFar: Usage, field: Field, ghost done: Usage)
    returns (merged: Usage)
    requires field !in done && soFar == Join(OrEmpty(previous), done)
    ensures merged == Join(OrEmpty(previous), if field in next then done[field := next[field]] else done)
  {
    merged := soFar;
    if field in next {
      merged := merged[field := Max(Get(OrEmpty(previous), field), next[field])];
    }
  }

  method AccumulateUsage(target: Option<Usage>, delta: Usage) returns (out: Option<Usage>)
    ensures out == Add(target, delta)
    ensures forall f :: Has(out, f) <==> Has(target, f) || f in delta
    ensures forall f | Has(out, f) ::
              out.value[f] == (if Has(target, f) then target.value[f] else 0) + (if f in delta then delta[f] else 0)
  {
    out := target;
    for i := 0 to |FIELDS|
      invariant out == Add(target, Restrict(delta, FIELDS[..i]))
    {
      var field := FIELDS[i];
      RestrictOneMore(delta, FIELDS[..i], field);
      assert FIELDS[..i + 1] == FIELDS[..i] + [field];
      out := AccumulateField(target, delta, out, field, Restrict(delta, FIELDS[..i]));
    }
    assert FIELDS[..|FIELDS|] == FIELDS;
    RestrictAll(delta);
  }

  method AccumulateField(target: Option<Usage>, delta: Usage, soFar: Option<Usage>, field: Field, ghost done: Usage)
    returns (out: Option<Usage>)
    requires field !in done && soFar == Add(target, done)
    ensures out == Add(target, if field in delta then done[field := delta[field]] else done)
  {
    out := soFar;
    if field in delta {
      out := Some(OrEmpty(out)[field := Get(OrEmpty(out), field) + delta[field]]);
      ghost var more := done[field := delta[field]];
      assert more != map[] by { assert field in more; }
      ghost var sum := Add(target, more).value;
      assert out.value.Keys == sum.Keys;
      assert forall f | f in sum :: out.value[f] == sum[f];
      assert out.value == sum;
    }
  }

  // ----- The stream of result frames ---------------------------------------------------

  /** A frame's usage belongs to its uuid; the model usage is a snapshot of the whole call. */
  datatype Frame = Frame(uuid: Option<string>, usage: Option<Usage>, modelUsage: Option<Usage>)

  /** The map by uuid keeps the order in which its keys came. */
  datatype Totals = Totals(
    byUuid: map<string, Usage>, order: seq<string>, legacy: Option<Usage>, cumulative: Option<Usage>)

  const START: Totals := Totals(map[], [], None, None)

  function OnFrame(s: Totals, x: Frame): Totals {
    var counted :=
      if x.usage.None? then s
      else if x.uuid.Some? then
        var u := x.uuid.value;
        var previous := if u in s.byUuid then s.byUuid[u] else map[];
        s.(byUuid := s.byUuid[u := Join(previous, x.usage.value)],
           order := if u in s.byUuid then s.order else s.order + [u])
      else s.(legacy := Some(Join(OrEmpty(s.legacy), x.usage.value)));
    if x.modelUsage.None? then counted
    else counted.(cumulative := Some(Join(OrEmpty(s.cumulative), x.modelUsage.value)))
  }

  function AfterFrames(frames: seq<Frame>): Totals {
    if frames == [] then START else OnFrame(AfterFrames(frames[..|frames| - 1]), frames[|frames| - 1])
  }

  function Sum(total: Option<Usage>, byUuid: map<string, Usage>, order: seq<string>): Option<Usage>
    requires forall u | u in order :: u in byUuid
    decreases |order|
  {
    if order == [] then total else Sum(Add(total, byUuid[order[0]]), byUuid, order[1..])
  }

  ghost predicate Valid(s: Totals) {
    && (forall u :: u in s.order <==> u in s.byUuid)
    && Distinct(s.order)
  }

  /** `totalUsage` after the frames so far. */
  function Total(s: Totals): Option<Usage>
    requires forall u | u in s.order :: u in s.byUuid
  {
    if s.cumulative.Some? then s.cumulative else Sum(s.legacy, s.byUuid, s.order)
  }

  method SumResultUsage(byUuid: map<string, Usage>, order: seq<string>, legacy: Option<Usage>) returns (total: Option<Usage>)
    requires forall u | u in order :: u in byUuid
    ensures total == Sum(legacy, byUuid, order)
    ensures forall f :: Has(total, f) <==> Has(legacy, f) || exists u :: u in order && f in byUuid[u]
    ensures forall f :: Count(total, f) == Count(legacy, f) + SumField(byUuid, order, f)
  {
    forall f {
      SumFields(legacy, byUuid, order, f);
    }
    total := legacy;
    for i := 0 to |order|
      invariant Sum(total, byUuid, order[i..]) == Sum(legacy, byUuid, order)
    {
      assert order[i..][1..] == order[i + 1..] && order[i..][0] == order[i];
      total := AccumulateUsage(total, byUuid[order[i]]);
    }
    assert order[|order|..] == [];
  }

  // ----- The total, field by field ------------------------------------------------------

  function SumField(byUuid: map<string, Usage>, order: seq<string>, f: Field): nat
    requires forall u | u in order :: u in byUuid
    decreases |order|
  {
    if order == [] then 0
    else (if f in byUuid[order[0]] then byUuid[order[0]][f] else 0) + SumField(byUuid, order[1..], f)
  }

  lemma {:induction false} SumFields(total: Option<Usage>, byUuid: map<string, Usage>, order: seq<string>, f: Field)
    requires forall u | u in order :: u in byUuid
    ensures Has(Sum(total, byUuid, order), f) <==> Has(total, f) || exists u :: u in order && f in byUuid[u]
    ensures Count(Sum(total, byUuid, order), f) == Count(total, f) + SumField(byUuid, order, f)
    decreases |order|
  {
    if order != [] {
      AddFields(total, byUuid[order[0]], f);
      SumFields(Add(total, byUuid[order[0]]), byUuid, order[1..], f);
      assert forall u :: u in order <==> u == order[0] || u in order[1..];
    }
  }

  /** The frame reports field f under this uuid. */
  predicate Reports(x: Frame, uuid: Option<string>, f: Field) {
    x.uuid == uuid && x.usage.Some? && f in x.usage.value
  }

  predicate ReportsModel(x: Frame, f: Field) {
    x.modelUsage.Some? && f in x.modelUsage.value
  }

  ghost predicate ReportedBy(frames: seq<Frame>, uuid: Option<string>, f: Field) {
    exists x :: x in frames && Reports(x, uuid, f)
  }

  ghost predicate ModelReported(frames: seq<Frame>, f: Field) {
    exists x :: x in frames && ReportsModel(x, f)
  }

  ghost predicate HasModel(frames: seq<Frame>) {
    exists x :: x in frames && x.modelUsage.Some?
  }

  lemma ReportedOneMore(frames: seq<Frame>, x: Frame, uuid: Option<string>, f: Field)
    ensures ReportedBy(frames + [x], uuid, f) <==> ReportedBy(frames, uuid, f) || Reports(x, uuid, f)
  {
    if ReportedBy(frames, uuid, f) {
      var y :| y in frames && Reports(y, uuid, f);
      assert y in frames + [x];
    }
    assert x in frames + [x];
  }

  lemma ModelReportedOneMore(frames: seq<Frame>, x: Frame, f: Field)
    ensures ModelReported(frames + [x], f) <==> ModelReported(frames, f) || ReportsModel(x, f)
    ensures HasModel(frames + [x]) <==> HasModel(frames) || x.modelUsage.Some?
  {
    if ModelReported(frames, f) {
      var y :| y in frames && ReportsModel(y, f);
      assert y in frames + [x];
    }
    if HasModel(frames) {
      var y :| y in frames && y.modelUsage.Some?;
      assert y in frames + [x];
    }
    assert x in frames + [x];
  }

  /** The greatest count of f that frames of this uuid report; 0 if none does. */
  function Greatest(frames: seq<Frame>, uuid: Option<string>, f: Field): nat {
    if frames == [] then 0
    else
      var m, x := Greatest(Init(frames), uuid, f), Last(frames);
      if Reports(x, uuid, f) && x.usage.value[f] > m then x.usage.value[f] else m
  }

  function GreatestModel(frames: seq<Frame>, f: Field): nat {
    if frames == [] then 0
    else
      var m, x := GreatestModel(Init(frames), f), Last(frames);
      if ReportsModel(x, f) && x.modelUsage.value[f] > m then x.modelUsage.value[f] else m
  }

  /** It is a count that some frame reports, and no frame reports a greater one. */
  lemma {:induction false} GreatestIsGreatest(frames: seq<Frame>, uuid: Option<string>, f: Field)
    ensures forall x | x in frames && Reports(x, uuid, f) :: x.usage.value[f] <= Greatest(frames, uuid, f)
    ensures Greatest(frames, uuid, f) > 0 ==>
              exists x :: x in frames && Reports(x, uuid, f) && x.usage.value[f] == Greatest(frames, uuid, f)
    decreases |frames|
  {
    if frames != [] {
      GreatestIsGreatest(Init(frames), uuid, f);
      assert frames == Init(frames) + [Last(frames)];
    }
  }

  lemma {:induction false} GreatestModelIsGreatest(frames: seq<Frame>, f: Field)
    ensures forall x | x in frames && ReportsModel(x, f) :: x.modelUsage.value[f] <= GreatestModel(frames, f)
    ensures GreatestModel(frames, f) > 0 ==>
              exists x :: x in frames && ReportsModel(x, f) && x.modelUsage.value[f] == GreatestModel(frames, f)
    decreases |frames|
  {
    if frames != [] {
      GreatestModelIsGreatest(Init(frames), f);
      assert frames == Init(frames) + [Last(frames)];
    }
  }

  /** Over the uuids, in whatever order, the sum of the greatest counts. */
  ghost function SumOfGreatest(uuids: set<string>, frames: seq<Frame>, f: Field): nat {
    if uuids == {} then 0
    else
      var u :| u in uuids;
      Greatest(frames, Some(u), f) + SumOfGreatest(uuids - {u}, frames, f)
  }

  lemma {:induction false} SumWithout(uuids: set<string>, u: string, frames: seq<Frame>, f: Field)
    requires u in uuids
    ensures SumOfGreatest(uuids, frames, f) == Greatest(frames, Some(u), f) + SumOfGreatest(uuids - {u}, frames, f)
    decreases |uuids|
  {
    var v :| v in uuids && SumOfGreatest(uuids, frames, f) ==
             Greatest(frames, Some(v), f) + SumOfGreatest(uuids - {v}, frames, f);
    if v != u {
      SumWithout(uuids - {v}, u, frames, f);
      SumWithout(uuids - {u}, v, frames, f);
      assert uuids - {v} - {u} == uuids - {u} - {v};
    }
  }

  function UuidsOf(frames: seq<Frame>): set<string> {
    set x | x in frames && x.uuid.Some? && x.usage.Some? :: x.uuid.value
  }

  function UuidSet(order: seq<string>): set<string> {
    set u | u in order
  }

  /** Every count kept so far is the greatest reported, and a field is kept just when it was reported. */
  ghost predicate Tracks(s: Totals, frames: seq<Frame>, f: Field) {
    && (forall u :: u in s.byUuid <==> u in UuidsOf(frames))
    && (forall u :: Count(Lookup(s, u), f) == Greatest(frames, Some(u), f))
    && (forall u :: Has(Lookup(s, u), f) <==> ReportedBy(frames, Some(u), f))
    && Count(s.legacy, f) == Greatest(frames, None, f)
    && (Has(s.legacy, f) <==> ReportedBy(frames, None, f))
    && Count(s.cumulative, f) == GreatestModel(frames, f)
    && (Has(s.cumulative, f) <==> ModelReported(frames, f))
    && (s.cumulative.Some? <==> HasModel(frames))
  }

  lemma JoinField(m: Option<Usage>, u: Usage, f: Field)
    ensures Has(Some(Join(OrEmpty(m), u)), f) <==> Has(m, f) || f in u
    ensures Count(Some(Join(OrEmpty(m), u)), f) ==
            if f in u && u[f] > Count(m, f) then u[f] else Count(m, f)
  {}

  lemma TrackUuid(s: Totals, frames: seq<Frame>, x: Frame, f: Field, u: string)
    requires Tracks(s, frames, f)
    ensures var t, all := OnFrame(s, x), frames + [x];
      && (u in t.byUuid <==> u in UuidsOf(all))
      && Count(Lookup(t, u), f) == Greatest(all, Some(u), f)
      && (Has(Lookup(t, u), f) <==> ReportedBy(all, Some(u), f))
  {
    var all := frames + [x];
    assert Init(all) == frames && Last(all) == x;
    LookupAfterFrame(s, x, u);
    if x.usage.Some? {
      JoinField(Lookup(s, u), x.usage.value, f);
    }
    ReportedOneMore(frames, x, Some(u), f);
    assert FrameSet(all) == FrameSet(frames) + {x};
  }

  lemma TrackLegacy(s: Totals, frames: seq<Frame>, x: Frame, f: Field)
    requires Tracks(s, frames, f)
    ensures var t, all := OnFrame(s, x), frames + [x];
      && Count(t.legacy, f) == Greatest(all, None, f)
      && (Has(t.legacy, f) <==> ReportedBy(all, None, f))
  {
    var all := frames + [x];
    assert Init(all) == frames && Last(all) == x;
    if x.usage.Some? {
      JoinField(s.legacy, x.usage.value, f);
    }
    ReportedOneMore(frames, x, None, f);
  }

  lemma TrackModel(s: Totals, frames: seq<Frame>, x: Frame, f: Field)
    requires Tracks(s, frames, f)
    ensures var t, all := OnFrame(s, x), frames + [x];
      && Count(t.cumulative, f) == GreatestModel(all, f)
      && (Has(t.cumulative, f) <==> ModelReported(all, f))
      && (t.cumulative.Some? <==> HasModel(all))
  {
    var all := frames + [x];
    assert Init(all) == frames && Last(all) == x;
    if x.modelUsage.Some? {
      JoinField(s.cumulative, x.modelUsage.value, f);
    }
    ModelReportedOneMore(frames, x, f);
  }

  lemma {:induction false} FramesAreTracked(frames: seq<Frame>, f: Field)
    ensures Tracks(AfterFrames(frames), frames, f)
    decreases |frames|
  {
    if frames != [] {
      FramesAreTracked(Init(frames), f);
      var s, x := AfterFrames(Init(frames)), Last(frames);
      assert frames == Init(frames) + [x];
      forall u {
        TrackUuid(s, Init(frames), x, f, u);
      }
      TrackLegacy(s, Init(frames), x, f);
      TrackModel(s, Init(frames), x, f);
    }
  }

  lemma {:induction false} SumIsOverUuids(byUuid: map<string, Usage>, order: seq<string>, frames: seq<Frame>, f: Field)
    requires Distinct(order) && forall u | u in order :: u in byUuid && Count(Some(byUuid[u]), f) == Greatest(frames, Some(u), f)
    ensures SumField(byUuid, order, f) == SumOfGreatest(UuidSet(order), frames, f)
    decreases |order|
  {
    if order != [] {
      SumIsOverUuids(byUuid, order[1..], frames, f);
      SumWithout(UuidSet(order), order[0], frames, f);
      assert UuidSet(order) - {order[0]} == UuidSet(order[1..]);
    }
  }

  lemma SumByFields(frames: seq<Frame>, f: Field)
    ensures Valid(AfterFrames(frames))
    ensures var s := AfterFrames(frames); var total := Sum(s.legacy, s.byUuid, s.order);
      && Count(total, f) == Greatest(frames, None, f) + SumOfGreatest(UuidsOf(frames), frames, f)
      && (Has(total, f) <==> exists uuid :: ReportedBy(frames, uuid, f))
  {
    TotalsSummarise(frames);
    FramesAreTracked(frames, f);
    var s := AfterFrames(frames);
    SumFields(s.legacy, s.byUuid, s.order, f);
    forall u | u in s.order ensures Count(Some(s.byUuid[u]), f) == Greatest(frames, Some(u), f) {
      assert Lookup(s, u) == Some(s.byUuid[u]);
    }
    SumIsOverUuids(s.byUuid, s.order, frames, f);
    assert UuidSet(s.order) == UuidsOf(frames);
    FieldsOfOrder(s, frames, f);
  }

  /**
   * The total, read off the frames.  Without model usage, a field's total is the greatest
   * count among frames without uuid plus, summed over the uuids, the greatest count among
   * the frames of each; with model usage it is the greatest count of that.  A field is
   * reported just when some such frame reports it.
   */
  lemma TotalByFields(frames: seq<Frame>, f: Field)
    ensures Valid(AfterFrames(frames))
    ensures var total := Total(AfterFrames(frames));
      if HasModel(frames) then
        Count(total, f) == GreatestModel(frames, f) && (Has(total, f) <==> ModelReported(frames, f))
      else
        && Count(total, f) == Greatest(frames, None, f) + SumOfGreatest(UuidsOf(frames), frames, f)
        && (Has(total, f) <==> exists uuid :: ReportedBy(frames, uuid, f))
  {
    SumByFields(frames, f);
    FramesAreTracked(frames, f);
  }

  lemma FieldsOfOrder(s: Totals, frames: seq<Frame>, f: Field)
    requires Valid(s) && Tracks(s, frames, f)
    ensures (Has(s.legacy, f) || exists u :: u in s.order && f in s.byUuid[u]) <==>
            exists uuid :: ReportedBy(frames, uuid, f)
  {
    forall u | u in s.order && f in s.byUuid[u] ensures ReportedBy(frames, Some(u), f) {
      assert Has(Lookup(s, u), f);
    }
    forall uuid | ReportedBy(frames, uuid, f)
      ensures Has(s.legacy, f) || exists u :: u in s.order && f in s.byUuid[u]
    {
      if uuid.Some? {
        assert Has(Lookup(s, uuid.value), f) && uuid.value in s.order;
      }
    }
  }

  // ----- The total depends on the set of frames only --------------------------------------

  predicate AtMost(u: Usage, m: Usage) {
    forall f | f in u :: f in m && u[f] <= m[f]
  }

  ghost predicate Attained(us: set<Usage>, m: Usage, f: Field)
    requires f in m
  {
    exists u :: u in us && f in u && u[f] == m[f]
  }

  /** m is the least usage above all of us; none exists above no report. */
  ghost predicate IsJoin(m: Usage, us: set<Usage>) {
    && (forall f | f in m :: Attained(us, m, f))
    && (forall u | u in us :: AtMost(u, m))
  }

  lemma JoinOneMore(m: Usage, us: set<Usage>, u: Usage)
    requires IsJoin(m, us)
    ensures IsJoin(Join(m, u), us + {u})
  {
    var n := Join(m, u);
    forall f | f in n ensures Attained(us + {u}, n, f) {
      if f in m && (f !in u || u[f] <= m[f]) {
        assert Attained(us, m, f);
        var v :| v in us && f in v && v[f] == m[f];
        assert v in us + {u} && v[f] == n[f];
      } else {
        assert u in us + {u} && f in u && u[f] == n[f];
      }
    }
    forall v | v in us + {u} ensures AtMost(v, n) {
      assert v != u ==> AtMost(v, m);
    }
  }

  lemma JoinIsLeast(m: Usage, n: Usage, us: set<Usage>)
    requires IsJoin(m, us) && IsJoin(n, us)
    ensures AtMost(m, n)
  {
    forall f | f in m ensures f in n && m[f] <= n[f] {
      assert Attained(us, m, f);
      var u :| u in us && f in u && u[f] == m[f];
      assert AtMost(u, n);
    }
  }

  lemma AtMostBothWays(m: Usage, n: Usage)
    requires AtMost(m, n) && AtMost(n, m)
    ensures m == n
  {
    assert m.Keys == n.Keys;
  }

  lemma JoinIsUnique(m: Usage, n: Usage, us: set<Usage>)
    requires IsJoin(m, us) && IsJoin(n, us)
    ensures m == n
  {
    JoinIsLeast(m, n, us);
    JoinIsLeast(n, m, us);
    AtMostBothWays(m, n);
  }

  function FrameSet(frames: seq<Frame>): set<Frame> {
    set x | x in frames
  }

  function UsagesOf(frames: set<Frame>, uuid: Option<string>): set<Usage> {
    set x | x in frames && x.uuid == uuid && x.usage.Some? :: x.usage.value
  }

  function ModelUsages(frames: set<Frame>): set<Usage> {
    set x | x in frames && x.modelUsage.Some? :: x.modelUsage.value
  }

  /** An optional running maximum of some reports. */
  ghost predicate Summarises(m: Option<Usage>, us: set<Usage>) {
    (m.None? <==> us == {}) && (m.Some? ==> IsJoin(m.value, us))
  }

  function Lookup(s: Totals, u: string): Option<Usage> {
    if u in s.byUuid then Some(s.byUuid[u]) else None
  }

  lemma SummariseOneMore(m: Option<Usage>, us: set<Usage>, u: Usage)
    requires Summarises(m, us)
    ensures Summarises(Some(Join(OrEmpty(m), u)), us + {u})
  {
    if m.None? {
      assert IsJoin(map[], us);
    }
    JoinOneMore(OrEmpty(m), us, u);
  }

  lemma SetOneMore(frames: seq<Frame>, x: Frame, uuid: Option<string>)
    ensures UsagesOf(FrameSet(frames + [x]), uuid) ==
            UsagesOf(FrameSet(frames), uuid) + if x.uuid == uuid && x.usage.Some? then {x.usage.value} else {}
    ensures ModelUsages(FrameSet(frames + [x])) ==
            ModelUsages(FrameSet(frames)) + if x.modelUsage.Some? then {x.modelUsage.value} else {}
  {
    assert FrameSet(frames + [x]) == FrameSet(frames) + {x};
  }

  /** The totals summarise, per uuid and overall, the set of what was reported. */
  ghost predicate SummarisesAll(s: Totals, frames: set<Frame>) {
    && (forall u :: Summarises(Lookup(s, u), UsagesOf(frames, Some(u))))
    && Summarises(s.legacy, UsagesOf(frames, None)) && Summarises(s.cumulative, ModelUsages(frames))
  }

  lemma LookupAfterFrame(s: Totals, x: Frame, u: string)
    ensures Lookup(OnFrame(s, x), u) ==
            if x.uuid == Some(u) && x.usage.Some? then Some(Join(OrEmpty(Lookup(s, u)), x.usage.value)) else Lookup(s, u)
  {}

  lemma SummariseFrame(frames: seq<Frame>, s: Totals, x: Frame)
    requires SummarisesAll(s, FrameSet(frames))
    ensures SummarisesAll(OnFrame(s, x), FrameSet(frames + [x]))
  {
    var t := OnFrame(s, x);
    forall u ensures Summarises(Lookup(t, u), UsagesOf(FrameSet(frames + [x]), Some(u))) {
      SetOneMore(frames, x, Some(u));
      LookupAfterFrame(s, x, u);
      if x.uuid == Some(u) && x.usage.Some? {
        SummariseOneMore(Lookup(s, u), UsagesOf(FrameSet(frames), Some(u)), x.usage.value);
      }
    }
    SetOneMore(frames, x, None);
    if x.uuid.None? && x.usage.Some? {
      SummariseOneMore(s.legacy, UsagesOf(FrameSet(frames), None), x.usage.value);
    }
    if x.modelUsage.Some? {
      SummariseOneMore(s.cumulative, ModelUsages(FrameSet(frames)), x.modelUsage.value);
    }
  }

  lemma NothingReported()
    ensures Valid(START) && SummarisesAll(START, FrameSet([]))
  {}

  lemma ValidAfterFrame(s: Totals, x: Frame)
    requires Valid(s)
    ensures Valid(OnFrame(s, x))
  {}

  lemma {:induction false} TotalsSummarise(frames: seq<Frame>)
    ensures Valid(AfterFrames(frames)) && SummarisesAll(AfterFrames(frames), FrameSet(frames))
    decreases |frames|
  {
    if frames == [] {
      NothingReported();
    } else {
      var init, x := frames[..|frames| - 1], frames[|frames| - 1];
      assert frames == init + [x];
      TotalsSummarise(init);
      ValidAfterFrame(AfterFrames(init), x);
      SummariseFrame(init, AfterFrames(init), x);
    }
  }

  lemma AddCommutes(t: Option<Usage>, a: Usage, b: Usage)
    ensures Add(Add(t, a), b) == Add(Add(t, b), a)
  {
    PlusCommutes(OrEmpty(t), a, b);
  }

  /** Summing a later entry first makes no difference. */
  lemma {:induction false} SumPullForward(t: Option<Usage>, m: map<string, Usage>, order: seq<string>, k: nat)
    requires k < |order| && forall u | u in order :: u in m
    ensures Sum(t, m, order) == Sum(Add(t, m[order[k]]), m, order[..k] + order[k + 1..])
    decreases k
  {
    var rest := order[..k] + order[k + 1..];
    if k == 0 {
      assert rest == order[1..];
    } else {
      var u, v := order[0], order[k];
      SumPullForward(Add(t, m[u]), m, order[1..], k - 1);
      AddCommutes(t, m[u], m[v]);
      assert rest[0] == u && rest[1..] == order[1..][..k - 1] + order[1..][k..];
    }
  }

  function Without(order: seq<string>, k: nat): seq<string>
    requires k < |order|
  {
    order[..k] + order[k + 1..]
  }

  /** Leaving one entry out leaves out just that uuid. */
  lemma WithoutFacts(order: seq<string>, k: nat)
    requires Distinct(order) && k < |order|
    ensures Distinct(Without(order, k))
    ensures forall u :: u in Without(order, k) <==> u in order && u != order[k]
  {
    var rest := Without(order, k);
    assert forall i | 0 <= i < |rest| :: rest[i] == if i < k then order[i] else order[i + 1];
    forall u ensures u in rest <==> u in order && u != order[k] {
      if u in order && u != order[k] {
        var i :| 0 <= i < |order| && order[i] == u;
        assert rest[if i < k then i else i - 1] == u;
      }
    }
  }

  /** The sum does not depend on the order of the entries. */
  lemma {:induction false} SumIsOrderFree(t: Option<Usage>, m: map<string, Usage>, a: seq<string>, b: seq<string>)
    requires Distinct(a) && Distinct(b) && (forall u :: u in a <==> u in b) && forall u | u in a :: u in m
    ensures Sum(t, m, a) == Sum(t, m, b)
    decreases |a|
  {
    assert b != [] ==> b[0] in a;
    if a != [] {
      assert a[0] in b;
      var k :| 0 <= k < |b| && b[k] == a[0];
      SumPullForward(t, m, b, k);
      assert Without(a, 0) == a[1..];
      WithoutFacts(a, 0);
      WithoutFacts(b, k);
      SumIsOrderFree(Add(t, m[a[0]]), m, Without(a, 0), Without(b, k));
    }
  }

  /** Order and replays do not matter: the same frames, however often and in whatever order, give the same total. */
  lemma TotalDependsOnFrameSet(f: seq<Frame>, g: seq<Frame>)
    requires FrameSet(f) == FrameSet(g)
    ensures Valid(AfterFrames(f)) && Valid(AfterFrames(g))
    ensures Total(AfterFrames(f)) == Total(AfterFrames(g))
  {
    TotalsSummarise(f);
    TotalsSummarise(g);
    var s, t, fs := AfterFrames(f), AfterFrames(g), FrameSet(f);
    SameSummary(s.legacy, t.legacy, UsagesOf(fs, None));
    SameSummary(s.cumulative, t.cumulative, ModelUsages(fs));
    forall u ensures Lookup(s, u) == Lookup(t, u) {
      SameSummary(Lookup(s, u), Lookup(t, u), UsagesOf(fs, Some(u)));
    }
    assert s.byUuid == t.byUuid by {
      forall u ensures u in s.byUuid <==> u in t.byUuid
      { assert Lookup(s, u) == Lookup(t, u); }
      forall u | u in s.byUuid ensures s.byUuid[u] == t.byUuid[u]
      { assert Lookup(s, u) == Lookup(t, u); }
    }
    SumIsOrderFree(s.legacy, s.byUuid, s.order, t.order);
  }

  lemma SameSummary(m: Option<Usage>, n: Option<Usage>, us: set<Usage>)
    requires Summarises(m, us) && Summarises(n, us)
    ensures m == n
  {
    if m.Some? {
      JoinIsUnique(m.value, n.value, us);
    }
  }
}

module ResultText {
  import opened JsStrings

  /** The text composed so far, and the trimmed texts that went into it. */
  datatype Composition = Composition(output: JsString, seen: set<JsString>)

  function Compose(c: Composition, rawText: JsString): Composition {
    var text := Trim(rawText);
    if text == [] || text in c.seen then c
    else
      var seen := c.seen + {text};
      if c.output == [] then Composition(text, seen)
      else if c.output + [NEWLINE] <= text then Composition(text, seen)
      else if text + [NEWLINE] <= c.output then Composition(c.output, seen)
      else Composition(c.output + [NEWLINE, NEWLINE] + text, seen)
  }

  function ComposeAll(texts: seq<JsString>): Composition {
    if texts == [] then Composition([], {}) else Compose(ComposeAll(texts[..|texts| - 1]), texts[|texts| - 1])
  }

  method ComposeResultText(resultTexts: seq<JsString>) returns (output: JsString)
    ensures output == ComposeAll(resultTexts).output
  {
    output := [];
    var seen: set<JsString> := {};
    for i := 0 to |resultTexts|
      invariant Composition(output, seen) == ComposeAll(resultTexts[..i])
    {
      assert resultTexts[..i + 1][..i] == resultTexts[..i];
      var text := Trim(resultTexts[i]);
      if text == [] || text in seen {
        continue;
      }
      seen := seen + {text};
      if output == [] {
        output := text;
        continue;
      }
      if output + [NEWLINE] <= text {
        output := text;
        continue;
      }
      if text + [NEWLINE] <= output {
        continue;
      }
      output := output + [NEWLINE, NEWLINE] + text;
    }
    assert resultTexts[..|resultTexts|] == resultTexts;
  }

  lemma PrefixContains(b: JsString, a: JsString)
    requires a <= b
    ensures Contains(b, a)
  {
    assert OccursAt(b, a, 0);
  }

  lemma ContainsExtends(b: JsString, a: JsString, more: JsString)
    requires Contains(b, a) && b <= more
    ensures Contains(more, a)
  {
    var i: nat :| OccursAt(b, a, i);
    assert more[i..i + |a|] == b[i..i + |a|];
    assert OccursAt(more, a, i);
  }

  lemma ComposeStep(c: Composition, rawText: JsString)
    requires AllOccur(c)
    ensures var d := Compose(c, rawText); AllOccur(d) && c.output <= d.output
  {
    var d, text := Compose(c, rawText), Trim(rawText);
    forall t | t in d.seen ensures Contains(d.output, t) {
      if t in c.seen {
        ContainsExtends(c.output, t, d.output);
      } else if text <= d.output {
        PrefixContains(d.output, text);
      } else {
        assert OccursAt(d.output, text, |c.output| + 2);
      }
    }
  }

  /** A text that is not blank went into the composition, however it was spelled around its edges. */
  ghost predicate Given(texts: seq<JsString>, t: JsString) {
    t != [] && exists i :: 0 <= i < |texts| && Trim(texts[i]) == t
  }

  lemma GivenOneMore(texts: seq<JsString>, last: JsString, t: JsString)
    ensures Given(texts + [last], t) <==> Given(texts, t) || (t != [] && t == Trim(last))
  {
    if Given(texts, t) {
      var i :| 0 <= i < |texts| && Trim(texts[i]) == t;
      assert Trim((texts + [last])[i]) == t;
    }
    if t != [] && t == Trim(last) {
      assert Trim((texts + [last])[|texts|]) == t;
    }
  }

  ghost predicate AllOccur(c: Composition) {
    forall t | t in c.seen :: Contains(c.output, t)
  }

  /** Every result text that is not blank occurs, trimmed, in the composed text. */
  lemma {:induction false} EveryTextOccurs(texts: seq<JsString>)
    ensures AllOccur(ComposeAll(texts))
    ensures forall t :: t in ComposeAll(texts).seen <==> Given(texts, t)
    decreases |texts|
  {
    if texts != [] {
      var init, last := texts[..|texts| - 1], texts[|texts| - 1];
      assert texts == init + [last];
      EveryTextOccurs(init);
      ComposeStep(ComposeAll(init), last);
      forall t ensures t in ComposeAll(texts).seen <==> Given(texts, t) {
        GivenOneMore(init, last, t);
      }
    }
  }

  /** Appending texts only ever extends the composed text. */
  lemma {:induction false} OnlyGrows(texts: seq<JsString>, more: seq<JsString>)
    ensures ComposeAll(texts).output <= ComposeAll(texts + more).output
    decreases |more|
  {
    if more == [] {
      assert texts + more == texts;
    } else {
      var init := more[..|more| - 1];
      OnlyGrows(texts, init);
      assert (texts + more)[..|texts + more| - 1] == texts + init;
      EveryTextOccurs(texts + init);
      ComposeStep(ComposeAll(texts + init), more[|more| - 1]);
    }
  }

  lemma ComposeLast(texts: seq<JsString>, last: JsString)
    ensures ComposeAll(texts + [last]) == Compose(ComposeAll(texts), last)
  {
    assert (texts + [last])[..|texts|] == texts;
  }

  lemma ReplayAtTheEnd(before: seq<JsString>, replay: JsString)
    requires Trim(replay) == [] || Given(before, Trim(replay))
    ensures ComposeAll(before + [replay]) == ComposeAll(before)
  {
    ComposeLast(before, replay);
    EveryTextOccurs(before);
  }

  /**
   * What one more text does: nothing if it is blank, was given before, or is what the
   * output begins with; it replaces an output it begins with; otherwise it follows the
   * output after a blank line.
   */
  lemma AppendedTextIsPlaced(texts: seq<JsString>, last: JsString)
    ensures var out, text, after := ComposeAll(texts).output, Trim(last), ComposeAll(texts + [last]).output;
      if AllSpace(last) || Given(texts, text) then after == out
      else if out == [] || out + [0x0A] <= text then after == text
      else if text + [0x0A] <= out then after == out
      else after == out + [0x0A, 0x0A] + text
  {
    ComposeLast(texts, last);
    EveryTextOccurs(texts);
    var front, back := TrimExactly(last);
  }

  lemma SplitLast(before: seq<JsString>, middle: seq<JsString>, after: seq<JsString>)
    requires after != []
    ensures before + middle + after == before + middle + after[..|after| - 1] + [after[|after| - 1]]
  {}

  /** A replay of an earlier text, or a blank one, can be left out wherever it stands. */
  lemma {:induction false} ReplaysAreIgnored(before: seq<JsString>, replay: JsString, after: seq<JsString>)
    requires Trim(replay) == [] || Given(before, Trim(replay))
    ensures ComposeAll(before + [replay] + after) == ComposeAll(before + [] + after)
    decreases |after|
  {
    if after == [] {
      ReplayAtTheEnd(before, replay);
      assert before + [replay] + after == before + [replay] && before + [] + after == before;
    } else {
      var init, last := after[..|after| - 1], after[|after| - 1];
      ReplaysAreIgnored(before, replay, init);
      SplitLast(before, [replay], after);
      SplitLast(before, [], after);
      ComposeLast(before + [replay] + init, last);
      ComposeLast(before + [] + init, last);
    }
  }
}
