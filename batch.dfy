/** The batch writer `fillEnities`: generate the records, take their keys,
    and submit them to the store in windows of at most `Limit` records, one
    multi-put per window, stopping at the first write that fails. */
module Batch {
  import opened Faults
  import opened Items

  /** The store's maximum number of entities in one multi-put. */
  const Limit: nat := 500

  /** The half-open index range [lo, hi) of one multi-put. */
  datatype Window = Window(lo: nat, hi: nat)

  /** The store's answer to one multi-put: whether it refuses the write of
      window `w` carrying those keys and records. The window is part of the
      question, so the answer may differ from one call to the next even for
      equal contents. */
  type Store = (Window, seq<Key>, seq<ItemModel>) -> bool

  function Min(a: nat, b: nat): nat {
    if a <= b then a else b
  }

  /** The windows the loop visits from position `index` on in a list of `n`
      elements: [index, min(index + limit, n)), then onwards by `limit`. */
  function WindowsFrom(index: nat, n: nat, limit: nat): (ws: seq<Window>)
    requires limit > 0
    ensures forall j :: 0 <= j < |ws| ==>
              index <= ws[j].lo < ws[j].hi <= n && ws[j].hi - ws[j].lo <= limit
    decreases n - index
  {
    if index >= n then []
    else [Window(index, Min(index + limit, n))] + WindowsFrom(index + limit, n, limit)
  }

  /** The windows of a whole list of `n` elements. */
  function Windows(n: nat, limit: nat): seq<Window>
    requires limit > 0
  {
    WindowsFrom(0, n, limit)
  }

  /** The elements of `s` that the windows `ws` select, in window order. */
  function Gather<T>(s: seq<T>, ws: seq<Window>): seq<T>
    requires forall j :: 0 <= j < |ws| ==> ws[j].lo <= ws[j].hi <= |s|
  {
    if ws == [] then [] else s[ws[0].lo..ws[0].hi] + Gather(s, ws[1..])
  }

  /** The keys of a list of records, position by position. */
  function Ids(es: seq<ItemModel>): seq<Key> {
    seq(|es|, (j: nat) requires j < |es| => es[j].id)
  }

  /** Every window lies inside a list of `n` elements. */
  predicate InRange(ws: seq<Window>, n: nat) {
    forall j :: 0 <= j < |ws| ==> ws[j].lo <= ws[j].hi <= n
  }

  /** Each window ends at or before the start of every later one: no overlap. */
  predicate Ordered(ws: seq<Window>) {
    forall j, k :: 0 <= j < k < |ws| ==> ws[j].hi <= ws[k].lo
  }

  /** Each window starts where the one before it ends, and all but the last
      hold exactly `limit` elements. */
  predicate Contiguous(ws: seq<Window>, limit: nat) {
    forall j :: 0 <= j < |ws| - 1 ==> ws[j].hi == ws[j + 1].lo && ws[j].hi - ws[j].lo == limit
  }

  /** Whether the store refuses the multi-put of window `w`, made with the
      keys and the entities of that window. */
  predicate Refused(rejects: Store,
                    keys: seq<Key>, es: seq<ItemModel>, w: Window)
    requires w.lo <= w.hi <= |keys| == |es|
  {
    rejects(w, keys[w.lo..w.hi], es[w.lo..w.hi])
  }

  /** The store accepts the multi-put of every window in `ws`. */
  predicate AllAccepted(rejects: Store,
                        keys: seq<Key>, es: seq<ItemModel>, ws: seq<Window>)
    requires |keys| == |es| && InRange(ws, |es|)
  {
    forall j :: 0 <= j < |ws| ==> !Refused(rejects, keys, es, ws[j])
  }

  /** The windows from `index` on are empty exactly when nothing is left;
      otherwise the first starts at `index` and the last ends at `n`. */
  lemma {:induction false} WindowsFromEnds(index: nat, n: nat, limit: nat)
    requires limit > 0
    ensures var ws := WindowsFrom(index, n, limit);
            && (ws == [] <==> index >= n)
            && (ws != [] ==> ws[0].lo == index && ws[|ws| - 1].hi == n)
    decreases n - index
  {
    if index < n {
      var rest := WindowsFrom(index + limit, n, limit);
      WindowsFromEnds(index + limit, n, limit);
      assert WindowsFrom(index, n, limit) == [Window(index, Min(index + limit, n))] + rest;
    }
  }

  /** Each window starts where the previous one ends; all but the last are full. */
  lemma {:induction false} WindowsFromContiguous(index: nat, n: nat, limit: nat)
    requires limit > 0
    ensures Contiguous(WindowsFrom(index, n, limit), limit)
    decreases n - index
  {
    if index < n {
      var ws := WindowsFrom(index, n, limit);
      var rest := WindowsFrom(index + limit, n, limit);
      WindowsFromContiguous(index + limit, n, limit);
      WindowsFromEnds(index + limit, n, limit);
      assert ws == [Window(index, Min(index + limit, n))] + rest;
      forall j | 0 <= j < |ws| - 1
        ensures ws[j].hi == ws[j + 1].lo && ws[j].hi - ws[j].lo == limit
      {
        if j > 0 {
          assert ws[j] == rest[j - 1] && ws[j + 1] == rest[j];
        }
      }
    }
  }

  /** No two windows overlap. */
  lemma {:induction false} WindowsFromOrdered(index: nat, n: nat, limit: nat)
    requires limit > 0
    ensures Ordered(WindowsFrom(index, n, limit))
    decreases n - index
  {
    if index < n {
      var ws := WindowsFrom(index, n, limit);
      var rest := WindowsFrom(index + limit, n, limit);
      WindowsFromOrdered(index + limit, n, limit);
      assert ws == [Window(index, Min(index + limit, n))] + rest;
      forall j, k | 0 <= j < k < |ws| ensures ws[j].hi <= ws[k].lo {
        if j == 0 {
          assert ws[k] == rest[k - 1];
        } else {
          assert ws[j] == rest[j - 1] && ws[k] == rest[k - 1];
        }
      }
    }
  }

  // Arithmetic facts for the count of windows.

  lemma MulMono(a: nat, b: nat, d: nat)
    requires a <= b
    ensures a * d <= b * d
  {
  }

  lemma DivUnique(x: nat, d: nat, q: nat)
    requires d > 0 && q * d <= x < q * d + d
    ensures x / d == q
  {
    var q', r' := x / d, x % d;
    assert x == q' * d + r' && r' < d;
    assert (q' + 1) * d == q' * d + d;
    assert (q + 1) * d == q * d + d;
    if q' < q {
      MulMono(q' + 1, q, d);
    } else if q' > q {
      MulMono(q + 1, q', d);
    }
  }

  lemma DivStep(x: nat, d: nat)
    requires d > 0
    ensures (x + d) / d == x / d + 1
  {
    var q := x / d;
    assert q * d <= x < q * d + d;
    assert (q + 1) * d == q * d + d;
    DivUnique(x + d, d, q + 1);
  }

  lemma DivOne(x: nat, d: nat)
    requires d > 0 && d <= x < 2 * d
    ensures x / d == 1
  {
    DivUnique(x, d, 1);
  }

  /** From `index` on, the loop makes ceil((n - index) / limit) multi-puts. */
  lemma {:induction false} WindowsFromCount(index: nat, n: nat, limit: nat)
    requires limit > 0 && index <= n
    ensures |WindowsFrom(index, n, limit)| == (n - index + limit - 1) / limit
    decreases n - index
  {
    if index == n {
      assert (limit - 1) / limit == 0;
    } else if index + limit < n {
      WindowsFromCount(index + limit, n, limit);
      DivStep(n - index - 1, limit);
      assert n - (index + limit) + limit - 1 == n - index - 1;
    } else {
      DivOne(n - index + limit - 1, limit);
    }
  }

  /** How far a log of windows reaches into the list: the end of its last window. */
  function Reach(calls: seq<Window>): nat {
    if calls == [] then 0 else calls[|calls| - 1].hi
  }

  /** Gathering one more window appends that window's elements. */
  lemma {:induction false} GatherAppend<T>(s: seq<T>, ws: seq<Window>, w: Window)
    requires InRange(ws, |s|) && w.lo <= w.hi <= |s|
    ensures Gather(s, ws + [w]) == Gather(s, ws) + s[w.lo..w.hi]
  {
    if ws != [] {
      assert (ws + [w])[1..] == ws[1..] + [w];
      GatherAppend(s, ws[1..], w);
    }
  }

  /** The first `m` windows of the plan lie inside the list, and the next
      one starts where they end. */
  lemma PlanPrefixStep(n: nat, m: nat)
    requires 0 < m <= |Windows(n, Limit)|
    ensures var plan := Windows(n, Limit);
            && InRange(plan[..m - 1], n) && InRange(plan[..m], n)
            && Reach(plan[..m - 1]) == plan[m - 1].lo <= plan[m - 1].hi == Reach(plan[..m]) <= n
            && plan[..m] == plan[..m - 1] + [plan[m - 1]]
  {
    var plan := Windows(n, Limit);
    WindowsFromEnds(0, n, Limit);
    WindowsFromContiguous(0, n, Limit);
    if m > 1 {
      assert plan[..m - 1][m - 2] == plan[m - 2];
    }
  }

  /** The first `m` windows of the plan for `s` select exactly the elements
      of `s` up to the end of the last of them, in order. */
  lemma {:induction false} GatherPlanPrefix<T>(s: seq<T>, m: nat)
    requires m <= |Windows(|s|, Limit)|
    ensures var ws := Windows(|s|, Limit)[..m];
            InRange(ws, |s|) && Reach(ws) <= |s| && Gather(s, ws) == s[..Reach(ws)]
  {
    if m > 0 {
      var plan := Windows(|s|, Limit);
      var w := plan[m - 1];
      GatherPlanPrefix(s, m - 1);
      PlanPrefixStep(|s|, m);
      GatherAppend(s, plan[..m - 1], w);
      assert s[..w.hi] == s[..w.lo] + s[w.lo..w.hi];
    }
  }

  /** Concatenating the windows of the plan gives back the whole list. */
  lemma WindowsCover<T>(s: seq<T>)
    ensures Gather(s, Windows(|s|, Limit)) == s
  {
    var plan := Windows(|s|, Limit);
    GatherPlanPrefix(s, |plan|);
    assert plan[..|plan|] == plan;
    WindowsFromEnds(0, |s|, Limit);
    assert Reach(plan) == |s|;
    assert s[..|s|] == s;
  }

  /** The submission plan for `n` elements is a partition into windows of
      1 .. limit elements, in increasing order, the first at 0 and the last
      ending at `n`; there are ceil(n / limit) of them. */
  lemma WindowsPartition(n: nat, limit: nat)
    requires limit > 0
    ensures var ws := Windows(n, limit);
            && (n == 0 <==> ws == [])
            && (ws != [] ==> ws[0].lo == 0 && ws[|ws| - 1].hi == n)
            && (forall j :: 0 <= j < |ws| ==> 0 < ws[j].hi - ws[j].lo <= limit)
            && Contiguous(ws, limit)
            && Ordered(ws)
            && |ws| == (n + limit - 1) / limit
  {
    WindowsFromEnds(0, n, limit);
    WindowsFromContiguous(0, n, limit);
    WindowsFromOrdered(0, n, limit);
    WindowsFromCount(0, n, limit);
  }

  /** The tool's own run: 10 records go out in one multi-put. */
  lemma TenRecordsOneCall()
    ensures Windows(10, Limit) == [Window(0, 10)]
  {
    assert WindowsFrom(500, 10, Limit) == [];
  }

  /** 1200 records go out as 500, 500 and 200. */
  lemma TwelveHundredRecordsThreeCalls()
    ensures Windows(1200, Limit) == [Window(0, 500), Window(500, 1000), Window(1000, 1200)]
  {
    assert WindowsFrom(1500, 1200, Limit) == [];
    assert WindowsFrom(1000, 1200, Limit) == [Window(1000, 1200)];
    assert WindowsFrom(500, 1200, Limit) == [Window(500, 1000), Window(1000, 1200)];
  }

  /** The key-extraction closure: one key per entity, in order. */
  method ExtractKeys(entities: seq<ItemModel>) returns (keys: seq<Key>)
    ensures keys == Ids(entities)
    ensures |keys| == |entities|
    ensures forall j :: 0 <= j < |keys| ==> keys[j] == entities[j].id
  {
    keys := [];
    for j := 0 to |entities|
      invariant |keys| == j
      invariant forall k :: 0 <= k < j ==> keys[k] == entities[k].id
    {
      keys := keys + [entities[j].id];
    }
  }

  /** What a run of the submission loop guarantees, over `keys`
      and `entities` that logged the windows `calls` and ended with `res`:
      the calls are the first windows of the plan, in order; the run passes
      exactly when the store accepts every window of the plan, and then all
      of them were submitted; otherwise the last call is a refused window,
      every call before it was accepted, no later window was tried, and the
      fault names the refused window. */
  predicate Reports(rejects: Store,
                    keys: seq<Key>, entities: seq<ItemModel>,
                    calls: seq<Window>, res: Outcome)
    requires |keys| == |entities|
  {
    var plan := Windows(|keys|, Limit);
    && |calls| <= |plan| && calls == plan[..|calls|]
    && (res == Pass <==> AllAccepted(rejects, keys, entities, plan))
    && (res == Pass ==> calls == plan)
    && (res != Pass ==>
          && calls != []
          && AllAccepted(rejects, keys, entities, calls[..|calls| - 1])
          && Refused(rejects, keys, entities, calls[|calls| - 1])
          && res == Fail(PutFailed(calls[|calls| - 1].lo, calls[|calls| - 1].hi)))
  }

  /** The run of the submission loop from `index` on, the windows in `done`
      having been submitted already: the log it ends with and its outcome. */
  function SubmitFrom(rejects: Store,
                      keys: seq<Key>, entities: seq<ItemModel>,
                      index: nat, done: seq<Window>): (seq<Window>, Outcome)
    requires |keys| == |entities|
    decreases |keys| - index
  {
    if index >= |keys| then (done, Pass)
    else
      var w := Window(index, Min(index + Limit, |keys|));
      if rejects(w, keys[w.lo..w.hi], entities[w.lo..w.hi]) then (done + [w], Fail(PutFailed(w.lo, w.hi)))
      else SubmitFrom(rejects, keys, entities, index + Limit, done + [w])
  }

  /** Taking one more element off the front of the rest of a plan extends
      the prefix already done by that element. */
  lemma PrefixStep<T>(done: seq<T>, x: T, rest: seq<T>, whole: seq<T>)
    requires done + ([x] + rest) == whole
    ensures |done| < |whole| && done + [x] == whole[..|done| + 1] && whole[|done|] == x
  {
  }

  /** A run that has so far followed the plan and been accepted ends as
      Reports says. */
  lemma {:induction false} SubmitFromReports(rejects: Store,
                                             keys: seq<Key>, entities: seq<ItemModel>,
                                             index: nat, done: seq<Window>)
    requires |keys| == |entities|
    requires done + WindowsFrom(index, |keys|, Limit) == Windows(|keys|, Limit)
    requires InRange(done, |keys|) && AllAccepted(rejects, keys, entities, done)
    ensures var r := SubmitFrom(rejects, keys, entities, index, done);
            Reports(rejects, keys, entities, r.0, r.1)
    decreases |keys| - index
  {
    var plan := Windows(|keys|, Limit);
    if index >= |keys| {
      assert done == plan;
    } else {
      var w := Window(index, Min(index + Limit, |keys|));
      var rest := WindowsFrom(index + Limit, |keys|, Limit);
      assert WindowsFrom(index, |keys|, Limit) == [w] + rest;
      PrefixStep(done, w, rest, plan);
      if rejects(w, keys[w.lo..w.hi], entities[w.lo..w.hi]) {
        assert Refused(rejects, keys, entities, plan[|done|]);
        assert (done + [w])[..|done|] == done;
      } else {
        assert (done + [w]) + rest == plan;
        SubmitFromReports(rejects, keys, entities, index + Limit, done + [w]);
      }
    }
  }

  /** What a run submitted, window by window, is exactly the records (and
      their keys) from the start up to the end of its last call, in order;
      a successful run submitted the whole list in ceil(n / Limit) calls. */
  lemma SubmittedRecords(rejects: Store,
                         keys: seq<Key>, entities: seq<ItemModel>,
                         calls: seq<Window>, res: Outcome)
    requires |keys| == |entities|
    requires Reports(rejects, keys, entities, calls, res)
    ensures InRange(calls, |keys|) && Reach(calls) <= |keys|
    ensures Gather(keys, calls) == keys[..Reach(calls)]
    ensures Gather(entities, calls) == entities[..Reach(calls)]
    ensures res == Pass ==> Reach(calls) == |keys| && |calls| == (|keys| + Limit - 1) / Limit
  {
    var plan := Windows(|keys|, Limit);
    assert calls == plan[..|calls|];
    GatherPlanPrefix(keys, |calls|);
    GatherPlanPrefix(entities, |calls|);
    if res == Pass {
      assert calls == plan;
      WindowsPartition(|keys|, Limit);
    }
  }

  /** The submission loop of fillEnities: walks the key list in windows of
      at most `Limit`, one multi-put per window, and stops at the first
      write the store refuses. `calls` logs the windows submitted, in order. */
  method PutInChunks(keys: seq<Key>, entities: seq<ItemModel>,
                     rejects: Store)
    returns (calls: seq<Window>, res: Outcome)
    requires |keys| == |entities|
    ensures (calls, res) == SubmitFrom(rejects, keys, entities, 0, [])
    ensures Reports(rejects, keys, entities, calls, res)
  {
    SubmitFromReports(rejects, keys, entities, 0, []);
    calls := [];
    var index := 0;
    while index < |keys|
      invariant SubmitFrom(rejects, keys, entities, index, calls)
             == SubmitFrom(rejects, keys, entities, 0, [])
      decreases |keys| - index
    {
      var index2 := index + Limit;
      if index2 > |keys| {
        index2 := |keys|;
      }
      calls := calls + [Window(index, index2)];
      if rejects(Window(index, index2), keys[index..index2], entities[index..index2]) {
        return calls, Fail(PutFailed(index, index2));
      }
      index := index + Limit;
    }
    return calls, Pass;
  }

  /** fillEnities: generates `count` records, takes their keys and submits
      them in windows. The key list always matches the entity list, so the
      "invalid size" fault never arises; the outcome is that of the
      submission loop on the generated records. */
  method FillEntities(count: nat, kind: string, namespace: string,
                      yesterday: nat -> Instant, uuids: nat -> string,
                      rejects: Store)
    returns (calls: seq<Window>, res: Outcome)
    ensures var es := Entities(count, kind, namespace, yesterday, uuids);
            Reports(rejects, Ids(es), es, calls, res)
  {
    var entities := CreateEntities(count, kind, namespace, yesterday, uuids);
    var keys := ExtractKeys(entities);
    if |keys| != |entities| {
      // The "invalid size" panic: ExtractKeys yields one key per entity.
      assert false;
    }
    calls, res := PutInChunks(keys, entities, rejects);
  }
}
