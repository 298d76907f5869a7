/** The process metrics: call counters, one fixed-bucket latency histogram per tool, and the cumulative
    rendering of the histograms. */
module Metrics {
  import opened Prelude

  /** Histogram bounds in seconds, ascending. */
  const BUCKETS: seq<real> := [0.001, 0.005, 0.01, 0.025, 0.05, 0.1, 0.25, 0.5, 1.0, 2.5, 5.0, 10.0]

  const N_BUCKETS: nat := 12

  /** Non-cumulative counts per bucket, the sum and the number of observations. */
  datatype Histogram = Histogram(buckets: seq<nat>, sum: real, count: nat)

  function Zeros(n: nat): (r: seq<nat>)
    ensures |r| == n && forall i :: 0 <= i < n ==> r[i] == 0
  {
    if n == 0 then [] else Zeros(n - 1) + [0]
  }

  function Fresh(): Histogram {
    Histogram(Zeros(N_BUCKETS), 0.0, 0)
  }

  /** Position of the first bound at or above `secs`; past the last bound there is none. */
  function BucketFrom(secs: real, i: nat): (r: Option<nat>)
    requires i <= N_BUCKETS
    ensures r.Some? ==> i <= r.value < N_BUCKETS && secs <= BUCKETS[r.value]
    ensures forall j :: i <= j < (if r.Some? then r.value else N_BUCKETS) ==> secs > BUCKETS[j]
    decreases N_BUCKETS - i
  {
    if i == N_BUCKETS then None else if secs <= BUCKETS[i] then Some(i) else BucketFrom(secs, i + 1)
  }

  /** `Histogram::observe`. */
  function Observe(h: Histogram, secs: real): Histogram
    requires |h.buckets| == N_BUCKETS
  {
    var at := BucketFrom(secs, 0);
    Histogram(if at.Some? then h.buckets[at.value := h.buckets[at.value] + 1] else h.buckets, h.sum + secs, h.count + 1)
  }

  // ----- Reference definitions over the observations themselves -----

  ghost function AtMost(obs: seq<real>, bound: real): nat {
    if |obs| == 0 then 0
    else AtMost(obs[..|obs| - 1], bound) + if obs[|obs| - 1] <= bound then 1 else 0
  }

  /** The count is of the observations at or below the bound. */
  lemma {:induction false} AtMostExact(obs: seq<real>, bound: real)
    ensures AtMost(obs, bound) == |Filter(obs, (x: real) => x <= bound)|
  {
    if |obs| > 0 {
      var (front, x) := (obs[..|obs| - 1], obs[|obs| - 1]);
      AtMostExact(front, bound);
      FilterConcat(front, [x], (x: real) => x <= bound);
      assert front + [x] == obs && [x][1..] == [];
    }
  }

  function Total(counts: seq<nat>): nat {
    if |counts| == 0 then 0 else Total(counts[..|counts| - 1]) + counts[|counts| - 1]
  }

  /** `h` summarizes `obs`: running totals over the buckets count the observations at or below each
      bound. */
  ghost predicate Summarizes(h: Histogram, obs: seq<real>) {
    && |h.buckets| == N_BUCKETS && h.count == |obs| && h.sum == Sum(obs)
    && forall i :: 0 <= i < N_BUCKETS ==> TotalsAt(h, obs, i)
  }

  ghost predicate TotalsAt(h: Histogram, obs: seq<real>, i: nat)
    requires i < N_BUCKETS && |h.buckets| == N_BUCKETS
  {
    Total(h.buckets[..i + 1]) == AtMost(obs, BUCKETS[i])
  }

  lemma {:induction false} TotalBump(counts: seq<nat>, i: nat, n: nat)
    requires n <= |counts| && i < |counts|
    ensures Total(counts[i := counts[i] + 1][..n]) == Total(counts[..n]) + if i < n then 1 else 0
  {
    if n > 0 {
      TotalBump(counts, i, n - 1);
      var bumped := counts[i := counts[i] + 1];
      assert bumped[..n][..n - 1] == bumped[..n - 1] && counts[..n][..n - 1] == counts[..n - 1];
    }
  }

  lemma BoundsAscend()
    ensures forall i, j :: 0 <= i < j < N_BUCKETS ==> BUCKETS[i] < BUCKETS[j]
  {
  }

  lemma ObserveSummarizes(h: Histogram, obs: seq<real>, secs: real)
    requires Summarizes(h, obs)
    ensures Summarizes(Observe(h, secs), obs + [secs])
  {
    assert (obs + [secs])[..|obs|] == obs;
    forall i | 0 <= i < N_BUCKETS
      ensures TotalsAt(Observe(h, secs), obs + [secs], i)
    {
      assert TotalsAt(h, obs, i);
      ObserveTotals(h, obs, secs, i);
    }
  }

  lemma ObserveTotals(h: Histogram, obs: seq<real>, secs: real, i: nat)
    requires i < N_BUCKETS && |h.buckets| == N_BUCKETS && TotalsAt(h, obs, i)
    ensures TotalsAt(Observe(h, secs), obs + [secs], i)
  {
    assert (obs + [secs])[..|obs|] == obs;
    BucketPlace(secs, i);
    if BucketFrom(secs, 0).Some? {
      TotalBump(h.buckets, BucketFrom(secs, 0).value, i + 1);
    }
  }

  /** An observation lands at or below bucket `i` exactly when it is within that bucket's bound. */
  lemma BucketPlace(secs: real, i: nat)
    requires i < N_BUCKETS
    ensures BucketFrom(secs, 0).Some? && BucketFrom(secs, 0).value <= i <==> secs <= BUCKETS[i]
  {
    BoundsAscend();
  }

  lemma {:induction false} TotalZeros(counts: seq<nat>)
    requires forall i :: 0 <= i < |counts| ==> counts[i] == 0
    ensures Total(counts) == 0
  {
    if |counts| > 0 {
      TotalZeros(counts[..|counts| - 1]);
    }
  }

  lemma FreshSummarizes()
    ensures Summarizes(Fresh(), [])
  {
    forall i | 0 <= i < N_BUCKETS
      ensures TotalsAt(Fresh(), [], i)
    {
      TotalZeros(Fresh().buckets[..i + 1]);
    }
  }

  lemma {:induction false} AtMostMonotone(obs: seq<real>, a: real, b: real)
    requires a <= b
    ensures AtMost(obs, a) <= AtMost(obs, b) <= |obs|
  {
    if |obs| > 0 {
      AtMostMonotone(obs[..|obs| - 1], a, b);
    }
  }

  // ----- Calls -----

  /** One recorded invocation; the backend is given by `record_call_with_backend` only. */
  datatype Call = Call(tool: string, outcome: string, secs: real, backend: Option<string>)

  ghost function ObservationsOf(calls: seq<Call>, tool: string): seq<real> {
    if |calls| == 0 then []
    else ObservationsOf(calls[..|calls| - 1], tool) +
         var c := calls[|calls| - 1]; if c.tool == tool then [c.secs] else []
  }

  ghost function Count(calls: seq<Call>, p: Call -> bool): nat {
    if |calls| == 0 then 0
    else Count(calls[..|calls| - 1], p) + if p(calls[|calls| - 1]) then 1 else 0
  }

  lemma CallsLast(calls: seq<Call>, c: Call, tool: string)
    ensures ObservationsOf(calls + [c], tool) ==
            if c.tool == tool then ObservationsOf(calls, tool) + [c.secs] else ObservationsOf(calls, tool)
  {
    assert (calls + [c])[..|calls|] == calls;
  }

  // ----- Counters -----

  type Counters = map<(string, string), nat>

  function Read(m: Counters, k: (string, string)): nat {
    if k in m then m[k] else 0
  }

  /** `*entry(k).or_insert(0) += 1`. */
  function Bump(m: Counters, k: (string, string)): Counters {
    m[k := Read(m, k) + 1]
  }

  /** The counters whose key starts with `first`, summed. */
  ghost function SumOver(m: Counters, first: string): nat
    decreases |m|
  {
    if m.Keys == {} then 0
    else var k :| k in m; Weight(m, k, first) + SumOver(m - {k}, first)
  }

  ghost function Weight(m: Counters, k: (string, string), first: string): nat
    requires k in m
  {
    if k.0 == first then m[k] else 0
  }

  lemma {:induction false} SumRemove(m: Counters, k: (string, string), first: string)
    requires k in m
    ensures SumOver(m, first) == Weight(m, k, first) + SumOver(m - {k}, first)
    decreases |m|
  {
    var j :| j in m && SumOver(m, first) == Weight(m, j, first) + SumOver(m - {j}, first);
    if j != k {
      var (a, b) := (m - {j}, m - {k});
      SumRemove(a, k, first);
      SumRemove(b, j, first);
      assert a - {k} == b - {j};
      assert SumOver(m, first) == Weight(m, j, first) + SumOver(a, first);
      assert SumOver(a, first) == Weight(m, k, first) + SumOver(a - {k}, first);
      assert SumOver(b, first) == Weight(m, j, first) + SumOver(b - {j}, first);
    }
  }

  /** One bump adds one to the sum of its first component and leaves the others alone. */
  lemma SumBump(m: Counters, k: (string, string), first: string)
    ensures SumOver(Bump(m, k), first) == SumOver(m, first) + if k.0 == first then 1 else 0
  {
    var m' := Bump(m, k);
    SumRemove(m', k, first);
    if k in m {
      SumRemove(m, k, first);
      assert m' - {k} == m - {k};
    } else {
      assert m' - {k} == m;
    }
  }

  // ----- Label escaping -----

  /** `esc` of one character: backslash, quote and newline. */
  function EscChar(c: char): string {
    if c == '\\' then "\\\\" else if c == '"' then "\\\"" else if c == '\n' then "\\n" else [c]
  }

  function Esc(s: string): string {
    if s == "" then "" else EscChar(s[0]) + Esc(s[1..])
  }

  lemma {:induction false} EscConcat(a: string, b: string)
    ensures Esc(a + b) == Esc(a) + Esc(b)
  {
    if a == "" {
      assert a + b == b;
    } else {
      assert (a + b)[1..] == a[1..] + b;
      EscConcat(a[1..], b);
    }
  }

  /** `esc`. */
  method EscapeLabel(s: string) returns (out: string)
    ensures out == Esc(s)
  {
    out := "";
    for i := 0 to |s|
      invariant out == Esc(s[..i])
    {
      assert s[..i + 1] == s[..i] + [s[i]] && [s[i]][1..] == "";
      EscConcat(s[..i], [s[i]]);
      match s[i]
      case '\\' => out := out + "\\\\";
      case '"' => out := out + "\\\"";
      case '\n' => out := out + "\\n";
      case c => out := out + [c];
    }
    assert s[..|s|] == s;
  }

  /** How a reader of the exposition format undoes label escapes. */
  function Unesc(s: string): string {
    if s == "" then ""
    else if s[0] == '\\' && |s| > 1 then [if s[1] == 'n' then '\n' else s[1]] + Unesc(s[2..])
    else [s[0]] + Unesc(s[1..])
  }

  /** Where a reader of the format sees a label value end: at the first quote that no backslash
      escapes. */
  function ClosingQuote(s: string): (i: nat)
    ensures i <= |s|
  {
    if s == "" || s[0] == '"' then 0
    else if s[0] == '\\' && |s| > 1 then 2 + ClosingQuote(s[2..])
    else 1 + ClosingQuote(s[1..])
  }

  /** An escaped label, once quoted, ends exactly at the quote put after it. */
  lemma {:induction false} EscStaysQuoted(s: string, rest: string)
    ensures ClosingQuote(Esc(s) + ("\"" + rest)) == |Esc(s)|
  {
    var tail := "\"" + rest;
    if s == "" {
      assert Esc(s) + tail == tail;
    } else {
      EscStaysQuoted(s[1..], rest);
      ConcatAssoc(EscChar(s[0]), Esc(s[1..]), tail);
      EscCharSkipped(s[0], Esc(s[1..]) + tail);
    }
  }

  lemma EscCharSkipped(c: char, rest: string)
    ensures ClosingQuote(EscChar(c) + rest) == |EscChar(c)| + ClosingQuote(rest)
  {
    ConcatParts(EscChar(c), rest);
  }

  /** An escaped label stays on its line, every quote in it follows a backslash, and it reads back as
      the label. */
  lemma {:induction false} EscReadsBack(s: string)
    ensures Unesc(Esc(s)) == s
    ensures forall i :: 0 <= i < |Esc(s)| ==> Esc(s)[i] != '\n'
    ensures forall i :: 0 <= i < |Esc(s)| && Esc(s)[i] == '"' ==> i > 0 && Esc(s)[i - 1] == '\\'
  {
    if s != "" {
      EscReadsBack(s[1..]);
      var (head, tail) := (EscChar(s[0]), Esc(s[1..]));
      assert (head + tail)[|head|..] == tail;
      assert [s[0]] + s[1..] == s;
    }
  }

  // ----- The registry -----

  datatype State = State(calls: Counters, durations: map<string, Histogram>, backendCalls: Counters)

  const Empty: State := State(map[], map[], map[])

  /** One recording. */
  function Record(s: State, c: Call): State
    requires forall t :: t in s.durations ==> |s.durations[t].buckets| == N_BUCKETS
  {
    State(Bump(s.calls, (c.tool, c.outcome)),
          s.durations[c.tool := Observe(if c.tool in s.durations then s.durations[c.tool] else Fresh(), c.secs)],
          if c.backend.Some? then Bump(s.backendCalls, (c.backend.value, c.outcome)) else s.backendCalls)
  }

  ghost function CallIs(k: (string, string)): Call -> bool {
    (c: Call) => c.tool == k.0 && c.outcome == k.1
  }

  ghost function BackendIs(k: (string, string)): Call -> bool {
    (c: Call) => c.backend == Some(k.0) && c.outcome == k.1
  }

  /** The registry accounts for exactly the calls of `history`: every counter is the number of calls
      with its labels, a histogram exists for every tool called and summarizes its latencies, and each
      tool's counters summed over outcomes equal its histogram's count. */
  ghost predicate Accounts(s: State, history: seq<Call>) {
    && (forall k :: Read(s.calls, k) == Count(history, CallIs(k)))
    && (forall k :: Read(s.backendCalls, k) == Count(history, BackendIs(k)))
    && (forall t :: t in s.durations <==> ObservationsOf(history, t) != [])
    && (forall t :: t in s.durations ==> Summarizes(s.durations[t], ObservationsOf(history, t)))
    && (forall t :: SumOver(s.calls, t) == |ObservationsOf(history, t)|)
  }

  lemma CountLast(calls: seq<Call>, c: Call, p: Call -> bool)
    ensures Count(calls + [c], p) == Count(calls, p) + if p(c) then 1 else 0
  {
    assert (calls + [c])[..|calls|] == calls;
  }

  lemma CountersKeep(s: State, history: seq<Call>, c: Call, k: (string, string))
    requires Accounts(s, history)
    ensures Read(Record(s, c).calls, k) == Count(history + [c], CallIs(k))
    ensures Read(Record(s, c).backendCalls, k) == Count(history + [c], BackendIs(k))
  {
    CountLast(history, c, CallIs(k));
    CountLast(history, c, BackendIs(k));
    assert CallIs(k)(c) <==> k == (c.tool, c.outcome);
    assert BackendIs(k)(c) <==> c.backend.Some? && k == (c.backend.value, c.outcome);
  }

  lemma HistogramsKeep(s: State, history: seq<Call>, c: Call, t: string)
    requires Accounts(s, history)
    ensures t in Record(s, c).durations <==> ObservationsOf(history + [c], t) != []
    ensures t in Record(s, c).durations ==> Summarizes(Record(s, c).durations[t], ObservationsOf(history + [c], t))
    ensures SumOver(Record(s, c).calls, t) == |ObservationsOf(history + [c], t)|
  {
    CallsLast(history, c, t);
    SumBump(s.calls, (c.tool, c.outcome), t);
    if t == c.tool {
      FreshSummarizes();
      ObserveSummarizes(if t in s.durations then s.durations[t] else Fresh(), ObservationsOf(history, t), c.secs);
    }
  }

  /** Every recording keeps the account. */
  lemma RecordKeeps(s: State, history: seq<Call>, c: Call)
    requires Accounts(s, history)
    ensures Accounts(Record(s, c), history + [c])
  {
    forall k {
      CountersKeep(s, history, c, k);
    }
    forall t {
      HistogramsKeep(s, history, c, t);
    }
  }

  lemma EmptyAccounts()
    ensures Accounts(Empty, [])
  {
  }

  /** One histogram as rendered: a cumulative count per bound, the +Inf count, the sum and the count. */
  datatype Series = Series(cumulative: seq<nat>, inf: nat, sum: real, count: nat)

  /** What a rendered histogram says about the observations: each cumulative bucket is the number at or
      below its bound, buckets are monotone and at most the +Inf count, which is the number of all. */
  ghost predicate Faithful(r: Series, obs: seq<real>) {
    && |r.cumulative| == N_BUCKETS && r.inf == r.count == |obs| && r.sum == Sum(obs)
    && (forall i :: 0 <= i < N_BUCKETS ==> r.cumulative[i] == AtMost(obs, BUCKETS[i]) <= r.inf)
    && (forall i, j :: 0 <= i < j < N_BUCKETS ==> r.cumulative[i] <= r.cumulative[j])
  }

  lemma SummaryFaithful(h: Histogram, obs: seq<real>, cumulative: seq<nat>)
    requires Summarizes(h, obs) && |cumulative| == N_BUCKETS
    requires forall i :: 0 <= i < N_BUCKETS ==> cumulative[i] == Total(h.buckets[..i + 1])
    ensures Faithful(Series(cumulative, h.count, h.sum, h.count), obs)
  {
    BoundsAscend();
    forall i | 0 <= i < N_BUCKETS
      ensures cumulative[i] == AtMost(obs, BUCKETS[i]) <= |obs|
    {
      assert TotalsAt(h, obs, i);
      AtMostMonotone(obs, BUCKETS[i], BUCKETS[i]);
    }
    forall i, j | 0 <= i < j < N_BUCKETS
      ensures cumulative[i] <= cumulative[j]
    {
      AtMostMonotone(obs, BUCKETS[i], BUCKETS[j]);
    }
  }

  class Registry {
    var calls: Counters
    var durations: map<string, Histogram>
    var backendCalls: Counters
    /** Everything recorded so far. */
    ghost var history: seq<Call>

    function Model(): State
      reads this
    {
      State(calls, durations, backendCalls)
    }

    ghost predicate Valid()
      reads this
    {
      Accounts(Model(), history)
    }

    constructor ()
      ensures Valid() && Model() == Empty && history == []
    {
      calls, durations, backendCalls, history := map[], map[], map[], [];
      EmptyAccounts();
    }

    /** `record_tool_call`. */
    method RecordToolCall(tool: string, secs: real, outcome: string)
      requires Valid()
      modifies this`calls, this`durations
      ensures Model() == Record(old(Model()), Call(tool, outcome, secs, None))
    {
      calls := Bump(calls, (tool, outcome));
      durations := durations[tool := Observe(if tool in durations then durations[tool] else Fresh(), secs)];
    }

    /** `record_call`. */
    method RecordCall(tool: string, secs: real, outcome: string)
      requires Valid()
      modifies this
      ensures Valid() && history == old(history) + [Call(tool, outcome, secs, None)]
      ensures Model() == Record(old(Model()), Call(tool, outcome, secs, None))
    {
      RecordKeeps(Model(), history, Call(tool, outcome, secs, None));
      RecordToolCall(tool, secs, outcome);
      history := history + [Call(tool, outcome, secs, None)];
    }

    /** `record_call_with_backend`. */
    method RecordCallWithBackend(tool: string, backend: string, secs: real, outcome: string)
      requires Valid()
      modifies this
      ensures Valid() && history == old(history) + [Call(tool, outcome, secs, Some(backend))]
      ensures Model() == Record(old(Model()), Call(tool, outcome, secs, Some(backend)))
    {
      RecordKeeps(Model(), history, Call(tool, outcome, secs, Some(backend)));
      RecordToolCall(tool, secs, outcome);
      backendCalls := Bump(backendCalls, (backend, outcome));
      history := history + [Call(tool, outcome, secs, Some(backend))];
    }

    /** The histogram part of `exposition` for one tool: the running total over its buckets. */
    method Render(tool: string) returns (r: Series)
      requires Valid() && tool in durations
      ensures Faithful(r, ObservationsOf(history, tool))
      ensures r.count == SumOver(calls, tool)
    {
      var h := durations[tool];
      var cumulative := 0;
      var rows: seq<nat> := [];
      for i := 0 to N_BUCKETS
        invariant |rows| == i && cumulative == Total(h.buckets[..i])
        invariant forall j :: 0 <= j < i ==> rows[j] == Total(h.buckets[..j + 1])
      {
        assert h.buckets[..i + 1][..i] == h.buckets[..i];
        cumulative := cumulative + h.buckets[i];
        rows := rows + [cumulative];
      }
      SummaryFaithful(h, ObservationsOf(history, tool), rows);
      return Series(rows, h.count, h.sum, h.count);
    }
  }
}
