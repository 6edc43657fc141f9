/** Latency metrics (openblade/api/aml_state.py): aggregates updated one request at a time,
    against their recomputation from the full request history. */
module LatencyMetrics {
  import opened Text
  import opened Wrappers

  datatype Request = Request(verb: string, endpoint: string, status: int, durationMs: int, delayMs: int)

  datatype Stat = Stat(min: Option<int>, max: Option<int>, avg: real, total: int, last: int)

  datatype EndpointMetric = EndpointMetric(
    verb: string, endpoint: string, count: nat, lastStatus: int,
    statusCodes: map<int, nat>, duration: Stat, delay: Stat)

  const EMPTY_STAT := Stat(None, None, 0.0, 0, 0)

  function Clamp(v: int): int {
    if v < 0 then 0 else v
  }

  function KeyOf(r: Request): string {
    Upper(r.verb) + " " + r.endpoint
  }

  // ---- rounding ----

  /** The nearest integer, an exact half going to the even neighbour. */
  function RoundHalfEven(x: real): int {
    var f := x.Floor;
    var part := x - f as real;
    if part < 0.5 then f else if part > 0.5 then f + 1 else if f % 2 == 0 then f else f + 1
  }

  /** `round(x, 3)` */
  function Round3(x: real): real {
    RoundHalfEven(x * 1000.0) as real / 1000.0
  }

  function Average(total: int, count: nat): real {
    Round3(total as real / (if count < 1 then 1 else count) as real)
  }

  lemma RoundBetween(x: real, low: int, high: int)
    requires low as real <= x <= high as real
    ensures low as real <= Round3(x) <= high as real
  {
    var y := x * 1000.0;
    assert (1000 * low) as real <= y <= (1000 * high) as real;
    assert 1000 * low <= RoundHalfEven(y) <= 1000 * high;
  }

  /** The rounded value is a number of thousandths, and no farther from the exact one than half of one. */
  lemma RoundNearest(x: real) returns (k: int)
    ensures Round3(x) == k as real / 1000.0
    ensures -0.0005 <= Round3(x) - x <= 0.0005
  {
    var y := x * 1000.0;
    k := RoundHalfEven(y);
    assert -0.5 <= k as real - y <= 0.5;
    assert Round3(x) == k as real / 1000.0;
  }

  /** Requests share an entry exactly when they share the endpoint and, in upper case, the method. */
  lemma KeySeparates(a: Request, b: Request)
    requires ' ' !in a.verb && ' ' !in b.verb
    ensures KeyOf(a) == KeyOf(b) <==> Upper(a.verb) == Upper(b.verb) && a.endpoint == b.endpoint
  {
    NoSpaceInUpper(a.verb);
    NoSpaceInUpper(b.verb);
    var u, v := Upper(a.verb), Upper(b.verb);
    assert KeyOf(a) == u + [' '] + a.endpoint && KeyOf(b) == v + [' '] + b.endpoint;
    IndexOfFirst(u, ' ', a.endpoint);
    IndexOfFirst(v, ' ', b.endpoint);
    if KeyOf(a) == KeyOf(b) {
      assert u == KeyOf(a)[..|u|] && a.endpoint == KeyOf(a)[|u| + 1..];
      assert v == KeyOf(b)[..|v|] && b.endpoint == KeyOf(b)[|v| + 1..];
    }
  }

  lemma NoSpaceInUpper(verb: string)
    requires ' ' !in verb
    ensures ' ' !in Upper(verb)
  {
    assert forall k :: 0 <= k < |verb| ==> verb[k] in verb;
  }

  // ---- recomputation ----

  function Sum(values: seq<int>): int {
    if values == [] then 0 else Sum(values[..|values| - 1]) + values[|values| - 1]
  }

  ghost predicate IsMin(values: seq<int>, m: int) {
    m in values && forall v :: v in values ==> m <= v
  }

  ghost predicate IsMax(values: seq<int>, m: int) {
    m in values && forall v :: v in values ==> v <= m
  }

  /** `s` is what the values, oldest first, amount to. */
  ghost predicate IsStat(s: Stat, values: seq<int>) {
    if values == [] then s == EMPTY_STAT
    else
      && s.min.Some? && IsMin(values, s.min.value)
      && s.max.Some? && IsMax(values, s.max.value)
      && s.total == Sum(values)
      && s.last == values[|values| - 1]
      && s.avg == Average(s.total, |values|)
  }

  /** The requests whose key is `k`, in order. */
  function Group<K(==)>(history: seq<Request>, keyOf: Request -> K, k: K): seq<Request> {
    if history == [] then []
    else
      var before, last := Group(history[..|history| - 1], keyOf, k), history[|history| - 1];
      if keyOf(last) == k then before + [last] else before
  }

  function ForKey(history: seq<Request>, key: string): seq<Request> {
    Group(history, KeyOf, key)
  }

  function StatusOf(r: Request): int {
    r.status
  }

  function Durations(history: seq<Request>): seq<int> {
    seq(|history|, i requires 0 <= i < |history| => Clamp(history[i].durationMs))
  }

  function Delays(history: seq<Request>): seq<int> {
    seq(|history|, i requires 0 <= i < |history| => Clamp(history[i].delayMs))
  }

  function WithStatus(history: seq<Request>, status: int): nat {
    |Group(history, StatusOf, status)|
  }

  /** One endpoint's aggregate is what its own requests amount to. */
  ghost predicate IsEndpoint(m: EndpointMetric, key: string, own: seq<Request>) {
    && own != []
    && key == m.verb + " " + m.endpoint
    && m.count == |own|
    && m.lastStatus == own[|own| - 1].status
    && (forall c :: c in m.statusCodes <==> WithStatus(own, c) > 0)
    && (forall c :: c in m.statusCodes ==> m.statusCodes[c] == WithStatus(own, c))
    && IsStat(m.duration, Durations(own))
    && IsStat(m.delay, Delays(own))
  }

  ghost predicate IsTable(endpoints: map<string, EndpointMetric>, history: seq<Request>) {
    && (forall key :: key in endpoints <==> ForKey(history, key) != [])
    && forall key :: key in endpoints ==> IsEndpoint(endpoints[key], key, ForKey(history, key))
  }

  // ---- one update ----

  /** `_update_latency_stats` */
  function Updated(s: Stat, value: int, count: nat): Stat {
    var v := Clamp(value);
    Stat(
      Some(if s.min.None? then v else if s.min.value < v then s.min.value else v),
      Some(if s.max.None? then v else if s.max.value > v then s.max.value else v),
      Average(s.total + v, count),
      s.total + v,
      v)
  }

  /** Updating the aggregate of some values gives the aggregate of one more. */
  lemma UpdatedIsStat(s: Stat, values: seq<int>, value: int)
    requires IsStat(s, values)
    ensures IsStat(Updated(s, value, |values| + 1), values + [Clamp(value)])
  {
    hide Average;
    var v := Clamp(value);
    var more := values + [v];
    assert more[..|values|] == values;
    AppendMembers(values, v);
    if values != [] {
      assert IsMin(more, if s.min.value < v then s.min.value else v);
      assert IsMax(more, if s.max.value > v then s.max.value else v);
    } else {
      assert IsMin(more, v) && IsMax(more, v);
      assert Sum(more) == v;
    }
  }

  lemma AppendMembers(values: seq<int>, v: int)
    ensures forall x :: x in values + [v] <==> x in values || x == v
  {
  }

  /** The mean lies between the extremes, rounding included. */
  lemma AverageWithinRange(s: Stat, values: seq<int>)
    requires IsStat(s, values) && values != []
    ensures s.min.value as real <= s.avg <= s.max.value as real
  {
    assert forall i :: 0 <= i < |values| ==> values[i] in values;
    SumBounds(values, s.min.value, s.max.value);
    var n, mean := |values|, s.total as real / |values| as real;
    MeanBounds(s.total, n, s.min.value, s.max.value);
    RoundBetween(mean, s.min.value, s.max.value);
  }

  lemma {:induction false} SumBounds(values: seq<int>, low: int, high: int)
    requires forall i :: 0 <= i < |values| ==> low <= values[i] <= high
    ensures low * |values| <= Sum(values) <= high * |values|
  {
    if values != [] {
      var n := |values| - 1;
      SumBounds(values[..n], low, high);
      assert low * (n + 1) == low * n + low;
      assert high * (n + 1) == high * n + high;
    }
  }

  lemma MeanBounds(total: int, n: nat, low: int, high: int)
    requires n > 0 && low * n <= total <= high * n
    ensures low as real <= total as real / n as real <= high as real
  {
    var q := total as real / n as real;
    assert q * n as real == total as real;
    assert (low * n) as real == low as real * n as real;
    assert (high * n) as real == high as real * n as real;
  }

  // ---- the values themselves ----

  /** The recorded values are the requests' own, a negative one counting as zero. */
  lemma RecordedValues(own: seq<Request>)
    ensures |Durations(own)| == |Delays(own)| == |own|
    ensures forall i :: 0 <= i < |own| ==>
      && (own[i].durationMs >= 0 ==> Durations(own)[i] == own[i].durationMs)
      && (own[i].durationMs < 0 ==> Durations(own)[i] == 0)
      && (own[i].delayMs >= 0 ==> Delays(own)[i] == own[i].delayMs)
      && (own[i].delayMs < 0 ==> Delays(own)[i] == 0)
  {
  }

  /** What an aggregate of some values shows: one of them is the least and one the greatest, the last
      is the last, the total is their sum, and the average is theirs to half a thousandth. */
  lemma StatShows(s: Stat, values: seq<int>) returns (i: nat, j: nat)
    requires IsStat(s, values) && values != []
    ensures s.min.Some? && s.max.Some?
    ensures i < |values| && j < |values| && values[i] == s.min.value && values[j] == s.max.value
    ensures forall k :: 0 <= k < |values| ==> s.min.value <= values[k] <= s.max.value
    ensures s.last == values[|values| - 1] && s.total == Sum(values)
    ensures -0.0005 <= s.avg - s.total as real / |values| as real <= 0.0005
  {
    hide Round3;
    assert forall n :: 0 <= n < |values| ==> values[n] in values;
    i :| 0 <= i < |values| && values[i] == s.min.value;
    j :| 0 <= j < |values| && values[j] == s.max.value;
    var k := RoundNearest(s.total as real / |values| as real);
  }

  /** An endpoint that saw no negative duration shows its requests' durations as they were. */
  lemma DurationsShown(m: EndpointMetric, key: string, own: seq<Request>) returns (i: nat, j: nat)
    requires IsEndpoint(m, key, own) && forall r :: r in own ==> r.durationMs >= 0
    ensures m.duration.min.Some? && m.duration.max.Some? && m.count == |own| > 0
    ensures i < |own| && own[i].durationMs == m.duration.min.value
    ensures j < |own| && own[j].durationMs == m.duration.max.value
    ensures forall r :: r in own ==> m.duration.min.value <= r.durationMs <= m.duration.max.value
    ensures m.duration.last == own[|own| - 1].durationMs
    ensures m.duration.total == Total(own, (r: Request) => r.durationMs)
  {
    hide IsStat, Clamp;
    RecordedValues(own);
    i, j := StatShows(m.duration, Durations(own));
    TotalOfDurations(own);
    assert own[i] in own && own[j] in own && own[|own| - 1] in own;
  }

  lemma {:induction false} TotalOfDurations(own: seq<Request>)
    requires forall r :: r in own ==> r.durationMs >= 0
    ensures Sum(Durations(own)) == Total(own, (r: Request) => r.durationMs)
  {
    if own != [] {
      var init := own[..|own| - 1];
      assert own[|own| - 1] in own && forall r :: r in init ==> r in own;
      TotalOfDurations(init);
      assert Durations(own)[..|own| - 1] == Durations(init);
    }
  }

  // ---- sums over the endpoints ----

  ghost function SumOver<K>(keys: set<K>, f: K -> int): int {
    if keys == {} then 0
    else
      var k :| k in keys;
      f(k) + SumOver(keys - {k}, f)
  }

  lemma {:induction false} SumOverPick<K>(keys: set<K>, f: K -> int, k: K)
    requires k in keys
    ensures SumOver(keys, f) == f(k) + SumOver(keys - {k}, f)
    decreases |keys|
  {
    var c :| c in keys && SumOver(keys, f) == f(c) + SumOver(keys - {c}, f);
    if c != k {
      SumOverPick(keys - {c}, f, k);
      SumOverPick(keys - {k}, f, c);
      assert keys - {c} - {k} == keys - {k} - {c};
    }
  }

  lemma {:induction false} SumOverSame<K>(keys: set<K>, f: K -> int, g: K -> int)
    requires forall k :: k in keys ==> f(k) == g(k)
    ensures SumOver(keys, f) == SumOver(keys, g)
    decreases |keys|
  {
    if keys != {} {
      var k :| k in keys && SumOver(keys, f) == f(k) + SumOver(keys - {k}, f);
      SumOverSame(keys - {k}, f, g);
      SumOverPick(keys, g, k);
    }
  }

  /** Raising one summand by `d`, new or not, raises the sum by `d`. */
  lemma SumOverRaise<K>(keys: set<K>, f: K -> int, g: K -> int, k: K, d: int)
    requires forall x :: x in keys && x != k ==> g(x) == f(x)
    requires g(k) == (if k in keys then f(k) else 0) + d
    ensures SumOver(keys + {k}, g) == SumOver(keys, f) + d
  {
    var rest := keys - {k};
    SumOverSame(rest, f, g);
    SumOverPick(keys + {k}, g, k);
    assert keys + {k} - {k} == rest;
    if k in keys {
      SumOverPick(keys, f, k);
    } else {
      assert rest == keys;
    }
  }

  function Keys<K>(history: seq<Request>, keyOf: Request -> K): set<K> {
    set r | r in history :: keyOf(r)
  }

  lemma {:induction false} KeysOfGroups<K(!new)>(history: seq<Request>, keyOf: Request -> K, k: K)
    ensures k in Keys(history, keyOf) <==> Group(history, keyOf, k) != []
  {
    if history != [] {
      KeysOfGroups(history[..|history| - 1], keyOf, k);
      assert history == history[..|history| - 1] + [history[|history| - 1]];
    }
  }

  /** The total of a per-request quantity. */
  function Total(history: seq<Request>, weigh: Request -> int): int {
    if history == [] then 0 else Total(history[..|history| - 1], weigh) + weigh(history[|history| - 1])
  }

  lemma TotalAppend(history: seq<Request>, r: Request, weigh: Request -> int)
    ensures Total(history + [r], weigh) == Total(history, weigh) + weigh(r)
  {
    assert (history + [r])[..|history|] == history;
  }

  /** Any total over the requests is the sum over the groups of the groups' totals. */
  lemma {:induction false} TotalByGroup<K(!new)>(history: seq<Request>, keyOf: Request -> K, weigh: Request -> int)
    ensures Total(history, weigh) ==
      SumOver(Keys(history, keyOf), (k: K) => Total(Group(history, keyOf, k), weigh))
  {
    if history != [] {
      var before, last := history[..|history| - 1], history[|history| - 1];
      var f := (k: K) => Total(Group(before, keyOf, k), weigh);
      var g := (k: K) => Total(Group(history, keyOf, k), weigh);
      TotalByGroup(before, keyOf, weigh);
      assert history == before + [last];
      assert Keys(history, keyOf) == Keys(before, keyOf) + {keyOf(last)};
      KeysOfGroups(before, keyOf, keyOf(last));
      TotalAppend(Group(before, keyOf, keyOf(last)), last, weigh);
      SumOverRaise(Keys(before, keyOf), f, g, keyOf(last), weigh(last));
    }
  }

  // ---- the metrics ----

  datatype Metrics = Metrics(
    captured: nat, duration: Stat, delay: Stat, endpoints: map<string, EndpointMetric>)

  /** Every aggregate equals its recomputation from the history. */
  ghost predicate Recomputed(m: Metrics, history: seq<Request>) {
    && m.captured == |history|
    && IsStat(m.duration, Durations(history))
    && IsStat(m.delay, Delays(history))
    && IsTable(m.endpoints, history)
  }

  function NewEndpoint(r: Request): EndpointMetric {
    EndpointMetric(Upper(r.verb), r.endpoint, 0, 0, map[], EMPTY_STAT, EMPTY_STAT)
  }

  function CountedStatus(codes: map<int, nat>, status: int): map<int, nat> {
    codes[status := (if status in codes then codes[status] else 0) + 1]
  }

  function UpdatedEndpoint(m: EndpointMetric, r: Request): EndpointMetric {
    EndpointMetric(
      m.verb, m.endpoint, m.count + 1, r.status, CountedStatus(m.statusCodes, r.status),
      Updated(m.duration, r.durationMs, m.count + 1), Updated(m.delay, r.delayMs, m.count + 1))
  }

  /** Like `IsEndpoint`, but for an endpoint that may have no request yet. */
  ghost predicate Summarizes(m: EndpointMetric, key: string, own: seq<Request>) {
    && key == m.verb + " " + m.endpoint
    && m.count == |own|
    && (own != [] ==> m.lastStatus == own[|own| - 1].status)
    && (forall c :: c in m.statusCodes <==> WithStatus(own, c) > 0)
    && (forall c :: c in m.statusCodes ==> m.statusCodes[c] == WithStatus(own, c))
    && IsStat(m.duration, Durations(own))
    && IsStat(m.delay, Delays(own))
  }

  lemma StatusAppend(own: seq<Request>, r: Request, c: int)
    ensures WithStatus(own + [r], c) == WithStatus(own, c) + if c == r.status then 1 else 0
  {
    assert (own + [r])[..|own|] == own;
  }

  lemma ValuesAppend(own: seq<Request>, r: Request)
    ensures Durations(own + [r]) == Durations(own) + [Clamp(r.durationMs)]
    ensures Delays(own + [r]) == Delays(own) + [Clamp(r.delayMs)]
  {
  }

  lemma UpdatedEndpointSummarizes(m: EndpointMetric, key: string, own: seq<Request>, r: Request)
    requires Summarizes(m, key, own)
    ensures Summarizes(UpdatedEndpoint(m, r), key, own + [r])
  {
    hide IsStat, Updated, WithStatus, Durations, Delays;
    ValuesAppend(own, r);
    assert |Durations(own)| == |Delays(own)| == |own| by { ValueCounts(own); }
    UpdatedIsStat(m.duration, Durations(own), r.durationMs);
    UpdatedIsStat(m.delay, Delays(own), r.delayMs);
    forall c
      ensures WithStatus(own + [r], c) == WithStatus(own, c) + if c == r.status then 1 else 0
    {
      StatusAppend(own, r, c);
    }
  }

  lemma ValueCounts(own: seq<Request>)
    ensures |Durations(own)| == |Delays(own)| == |own|
  {
  }

  lemma ForKeyAppend(history: seq<Request>, r: Request, key: string)
    ensures ForKey(history + [r], key) ==
      if key == KeyOf(r) then ForKey(history, key) + [r] else ForKey(history, key)
  {
    hide KeyOf;
    assert (history + [r])[..|history|] == history;
  }

  lemma TableAfter(endpoints: map<string, EndpointMetric>, history: seq<Request>, r: Request, m: EndpointMetric)
    requires IsTable(endpoints, history)
    requires Summarizes(m, KeyOf(r), ForKey(history, KeyOf(r)) + [r])
    ensures IsTable(endpoints[KeyOf(r) := m], history + [r])
  {
    hide Summarizes, IsEndpoint, KeyOf, ForKey;
    var more := history + [r];
    forall key
      ensures ForKey(more, key) == if key == KeyOf(r) then ForKey(history, key) + [r] else ForKey(history, key)
    {
      ForKeyAppend(history, r, key);
    }
    SummaryIsEndpoint(m, KeyOf(r), ForKey(more, KeyOf(r)));
  }

  lemma SummaryIsEndpoint(m: EndpointMetric, key: string, own: seq<Request>)
    requires Summarizes(m, key, own) && own != []
    ensures IsEndpoint(m, key, own)
  {
  }

  lemma EndpointIsSummary(m: EndpointMetric, key: string, own: seq<Request>)
    requires IsEndpoint(m, key, own)
    ensures Summarizes(m, key, own)
  {
  }

  lemma NewEndpointSummarizes(r: Request)
    ensures Summarizes(NewEndpoint(r), KeyOf(r), [])
  {
  }

  class LatencyRecorder {
    var metrics: Metrics
    ghost var history: seq<Request>

    ghost predicate Valid()
      reads this
    {
      Recomputed(metrics, history)
    }

    constructor ()
      ensures Valid() && history == []
    {
      metrics := Metrics(0, EMPTY_STAT, EMPTY_STAT, map[]);
      history := [];
    }

    method Reset()
      modifies this
      ensures Valid() && history == []
    {
      metrics := Metrics(0, EMPTY_STAT, EMPTY_STAT, map[]);
      history := [];
    }

    method Record(r: Request)
      requires Valid()
      modifies this
      ensures Valid() && history == old(history) + [r]
    {
      hide IsStat, Updated, Summarizes, IsEndpoint, Group, UpdatedEndpoint, NewEndpoint;
      var count := metrics.captured + 1;
      var key := KeyOf(r);
      var endpoint := if key in metrics.endpoints then metrics.endpoints[key] else NewEndpoint(r);
      ghost var own := ForKey(history, key);
      if key in metrics.endpoints {
        EndpointIsSummary(endpoint, key, own);
      } else {
        NewEndpointSummarizes(r);
      }
      UpdatedEndpointSummarizes(endpoint, key, own, r);
      TableAfter(metrics.endpoints, history, r, UpdatedEndpoint(endpoint, r));
      UpdatedIsStat(metrics.duration, Durations(history), r.durationMs);
      UpdatedIsStat(metrics.delay, Delays(history), r.delayMs);
      assert Durations(history + [r]) == Durations(history) + [Clamp(r.durationMs)];
      assert Delays(history + [r]) == Delays(history) + [Clamp(r.delayMs)];
      metrics := Metrics(
        count,
        Updated(metrics.duration, r.durationMs, count),
        Updated(metrics.delay, r.delayMs, count),
        metrics.endpoints[key := UpdatedEndpoint(endpoint, r)]);
      history := history + [r];
    }
  }

  // ---- laws of recomputed metrics ----

  lemma {:induction false} TotalOnes(history: seq<Request>)
    ensures Total(history, (_: Request) => 1) == |history|
  {
    if history != [] {
      TotalOnes(history[..|history| - 1]);
    }
  }

  lemma {:induction false} TotalDurations(history: seq<Request>)
    ensures Total(history, (r: Request) => Clamp(r.durationMs)) == Sum(Durations(history))
  {
    if history != [] {
      var before := history[..|history| - 1];
      TotalDurations(before);
      assert Durations(history)[..|history| - 1] == Durations(before);
    }
  }

  lemma {:induction false} TotalDelays(history: seq<Request>)
    ensures Total(history, (r: Request) => Clamp(r.delayMs)) == Sum(Delays(history))
  {
    if history != [] {
      var before := history[..|history| - 1];
      TotalDelays(before);
      assert Delays(history)[..|history| - 1] == Delays(before);
    }
  }

  lemma TableKeys(m: Metrics, history: seq<Request>)
    requires Recomputed(m, history)
    ensures m.endpoints.Keys == Keys(history, KeyOf)
  {
    forall key
      ensures key in m.endpoints.Keys <==> key in Keys(history, KeyOf)
    {
      KeysOfGroups(history, KeyOf, key);
    }
  }

  ghost function EndpointSum(m: Metrics, part: EndpointMetric -> int): int {
    SumOver(m.endpoints.Keys, (key: string) => if key in m.endpoints then part(m.endpoints[key]) else 0)
  }

  /** A per-endpoint number that totals a per-request quantity sums to the overall total. */
  lemma EndpointsAddUp(m: Metrics, history: seq<Request>, part: EndpointMetric -> int, weigh: Request -> int)
    requires Recomputed(m, history)
    requires forall key :: key in m.endpoints ==> part(m.endpoints[key]) == Total(ForKey(history, key), weigh)
    ensures EndpointSum(m, part) == Total(history, weigh)
  {
    hide Group, IsEndpoint, IsStat, Total;
    TableKeys(m, history);
    TotalByGroup(history, KeyOf, weigh);
    SumOverSame(m.endpoints.Keys,
                (key: string) => if key in m.endpoints then part(m.endpoints[key]) else 0,
                (key: string) => Total(Group(history, KeyOf, key), weigh));
  }

  lemma StatTotal(s: Stat, values: seq<int>)
    requires IsStat(s, values)
    ensures s.total == Sum(values)
  {
  }

  /** Captured requests and both totals are the sums over the endpoints. */
  lemma EndpointTotals(m: Metrics, history: seq<Request>)
    requires Recomputed(m, history)
    ensures m.captured == EndpointSum(m, (e: EndpointMetric) => e.count)
    ensures m.duration.total == EndpointSum(m, (e: EndpointMetric) => e.duration.total)
    ensures m.delay.total == EndpointSum(m, (e: EndpointMetric) => e.delay.total)
  {
    hide Group, IsStat, Total, EndpointSum;
    forall key | key in m.endpoints
      ensures m.endpoints[key].count == Total(ForKey(history, key), (_: Request) => 1)
      ensures m.endpoints[key].duration.total == Total(ForKey(history, key), (r: Request) => Clamp(r.durationMs))
      ensures m.endpoints[key].delay.total == Total(ForKey(history, key), (r: Request) => Clamp(r.delayMs))
    {
      var own := ForKey(history, key);
      TotalOnes(own);
      TotalDurations(own);
      TotalDelays(own);
      StatTotal(m.endpoints[key].duration, Durations(own));
      StatTotal(m.endpoints[key].delay, Delays(own));
    }
    TotalOnes(history);
    TotalDurations(history);
    TotalDelays(history);
    StatTotal(m.duration, Durations(history));
    StatTotal(m.delay, Delays(history));
    EndpointsAddUp(m, history, (e: EndpointMetric) => e.count, (_: Request) => 1);
    EndpointsAddUp(m, history, (e: EndpointMetric) => e.duration.total, (r: Request) => Clamp(r.durationMs));
    EndpointsAddUp(m, history, (e: EndpointMetric) => e.delay.total, (r: Request) => Clamp(r.delayMs));
  }

  /** An endpoint's count is the sum of its status counts. */
  lemma StatusCountsAddUp(m: EndpointMetric, key: string, own: seq<Request>)
    requires IsEndpoint(m, key, own)
    ensures m.count == SumOver(m.statusCodes.Keys, (c: int) => if c in m.statusCodes then m.statusCodes[c] else 0)
  {
    hide IsStat, Group, Total;
    forall c
      ensures c in m.statusCodes.Keys <==> c in Keys(own, StatusOf)
    {
      KeysOfGroups(own, StatusOf, c);
    }
    assert m.statusCodes.Keys == Keys(own, StatusOf);
    TotalOnes(own);
    TotalByGroup(own, StatusOf, (_: Request) => 1);
    forall c | c in m.statusCodes.Keys
      ensures m.statusCodes[c] == Total(Group(own, StatusOf, c), (_: Request) => 1)
    {
      TotalOnes(Group(own, StatusOf, c));
    }
    SumOverSame(m.statusCodes.Keys,
                (c: int) => if c in m.statusCodes then m.statusCodes[c] else 0,
                (c: int) => Total(Group(own, StatusOf, c), (_: Request) => 1));
  }
}
