/**
 * The exchange-rate graph kept by the lab 3 subscriber (lab3/lab3.py):
 * quotes become a pair of opposite edges, stale edges are evicted, quotes
 * arriving out of sequence are ignored, and a negative cycle is turned back
 * into a path of currencies through the predecessor map.
 *
 * Times are integer microseconds.  The weight of a quote, -log(price), is
 * computed outside the model and carried by the quote.
 */
module Lab3s {
  import opened Wrappers
  import opened PyDicts
  import opened BellmanFord

  type Currency = string

  /** A quote as add_node uses it: the two currencies of the cross and -log(price). */
  datatype Quote = Quote(timestamp: int, base: Currency, quoted: Currency, exchange: real)

  /** MSG_BUFFER: 0.1 s. */
  const MsgBuffer: int := 100_000
  /** QUOTE_EXPIRY: 1.5 s. */
  const QuoteExpiry: int := 1_500_000

  /** Every edge leads to a vertex: add_node creates both ends. */
  ghost predicate EdgesClosed(g: Graph<Currency>)
  {
    forall u, v :: u in g.items && v in g.items[u].items ==> v in g.items
  }

  /** The quote on u -> v, if there is that edge. */
  function EdgeOf(g: Graph<Currency>, u: Currency, v: Currency): Option<Edge>
  {
    if HasEdge(g, u, v) then Some(g.items[u].items[v]) else None
  }

  // -------------------------------------------------------------------
  // add_node
  // -------------------------------------------------------------------

  /**
   * One half of add_node: `if u not in graph: graph[u] = {}` then
   * `graph[u][v] = e`.  u becomes a vertex (last, if it is new) and u -> v
   * carries e; no other edge changes.
   */
  function SetEdge(g: Graph<Currency>, u: Currency, v: Currency, e: Edge): (r: Graph<Currency>)
    ensures r.items.Keys == g.items.Keys + {u}
    ensures r.order == if u in g.items then g.order else g.order + [u]
  {
    var g1 := if u in g.items then g else Put(g, u, Empty());
    Put(g1, u, Put(g1.items[u], v, e))
  }

  /** SetEdge keeps the graph a well-formed dict of dicts. */
  lemma SetEdgeValid(g: Graph<Currency>, u: Currency, v: Currency, e: Edge)
    requires GraphValid(g)
    ensures GraphValid(SetEdge(g, u, v, e))
  {
    PutValid(g, u, Empty());
    var g1 := if u in g.items then g else Put(g, u, Empty());
    PutValid(g1.items[u], v, e);
    PutValid(g1, u, Put(g1.items[u], v, e));
  }

  /** After SetEdge, u -> v carries e and every other edge is as before. */
  lemma SetEdgeEdges(g: Graph<Currency>, u: Currency, v: Currency, e: Edge)
    ensures EdgeOf(SetEdge(g, u, v, e), u, v) == Some(e)
    ensures forall x, y :: (x, y) != (u, v) ==> EdgeOf(SetEdge(g, u, v, e), x, y) == EdgeOf(g, x, y)
  {
  }

  /** Setting an edge to the quote it already carries changes nothing. */
  lemma SetEdgeSame(g: Graph<Currency>, u: Currency, v: Currency, e: Edge)
    requires EdgeOf(g, u, v) == Some(e)
    ensures SetEdge(g, u, v, e) == g
  {
    var d := g.items[u];
    assert d.items[v := e] == d.items;
    assert Put(d, v, e) == d;
    assert g.items[u := d] == g.items;
  }

  /** Setting an edge twice leaves the second quote. */
  lemma SetEdgeOverwrite(g: Graph<Currency>, u: Currency, v: Currency, e1: Edge, e2: Edge)
    ensures SetEdge(SetEdge(g, u, v, e1), u, v, e2) == SetEdge(g, u, v, e2)
  {
    var g1 := if u in g.items then g else Put(g, u, Empty());
    var d := g1.items[u];
    var a := SetEdge(g, u, v, e1);
    assert a == Put(g1, u, Put(d, v, e1));
    assert u in a.items && a.items[u] == Put(d, v, e1);
    var d1 := Put(d, v, e1);
    assert Put(d1, v, e2).order == Put(d, v, e2).order;
    assert Put(d1, v, e2).items == Put(d, v, e2).items;
    assert Put(d1, v, e2) == Put(d, v, e2);
    assert SetEdge(a, u, v, e2) == Put(a, u, Put(d1, v, e2));
    assert a.items[u := Put(d, v, e2)] == g1.items[u := Put(d, v, e2)];
  }

  /** The graph after add_node([a, b], quote) with w = -log(price). */
  function AddQuote(g: Graph<Currency>, a: Currency, b: Currency, w: real, ts: int): (r: Graph<Currency>)
    ensures r.items.Keys == g.items.Keys + {a, b}
  {
    SetEdge(SetEdge(g, a, b, Edge(ts, w)), b, a, Edge(ts, -w))
  }

  /** add_node keeps the graph a well-formed dict of dicts. */
  lemma AddQuoteValid(g: Graph<Currency>, a: Currency, b: Currency, w: real, ts: int)
    requires GraphValid(g)
    ensures GraphValid(AddQuote(g, a, b, w, ts))
  {
    SetEdgeValid(g, a, b, Edge(ts, w));
    SetEdgeValid(SetEdge(g, a, b, Edge(ts, w)), b, a, Edge(ts, -w));
  }

  /**
   * add_node: b -> a carries -w and (when a != b) a -> b carries w, both
   * stamped with the quote's time; no other edge changes, and vertices are
   * only added, at the end of the order.
   */
  lemma AddQuoteEdges(g: Graph<Currency>, a: Currency, b: Currency, w: real, ts: int)
    ensures var r := AddQuote(g, a, b, w, ts);
      && |g.order| <= |r.order| && r.order[..|g.order|] == g.order
      && EdgeOf(r, b, a) == Some(Edge(ts, -w))
      && (a != b ==> EdgeOf(r, a, b) == Some(Edge(ts, w)))
      && forall x, y :: (x, y) != (a, b) && (x, y) != (b, a) ==> EdgeOf(r, x, y) == EdgeOf(g, x, y)
  {
    var g1 := SetEdge(g, a, b, Edge(ts, w));
    SetEdgeEdges(g, a, b, Edge(ts, w));
    SetEdgeEdges(g1, b, a, Edge(ts, -w));
    var r := SetEdge(g1, b, a, Edge(ts, -w));
    assert g1.order[..|g.order|] == g.order;
    assert r.order[..|g.order|] == g.order;
  }

  /** add_node keeps every edge pointing at a vertex. */
  lemma AddQuoteClosed(g: Graph<Currency>, a: Currency, b: Currency, w: real, ts: int)
    requires EdgesClosed(g)
    ensures EdgesClosed(AddQuote(g, a, b, w, ts))
  {
    var r := AddQuote(g, a, b, w, ts);
    AddQuoteEdges(g, a, b, w, ts);
    forall u, v | u in r.items && v in r.items[u].items
      ensures v in r.items
    {
      if (u, v) != (a, b) && (u, v) != (b, a) {
        assert EdgeOf(r, u, v).Some?;
      }
    }
  }

  /** Adding the same quote twice is adding it once. */
  lemma AddQuoteIdempotent(g: Graph<Currency>, a: Currency, b: Currency, w: real, ts: int)
    ensures AddQuote(AddQuote(g, a, b, w, ts), a, b, w, ts) == AddQuote(g, a, b, w, ts)
  {
    var r := AddQuote(g, a, b, w, ts);
    AddQuoteEdges(g, a, b, w, ts);
    if a != b {
      SetEdgeEdges(r, a, b, Edge(ts, w));
      SetEdgeSame(r, a, b, Edge(ts, w));
      SetEdgeSame(r, b, a, Edge(ts, -w));
    } else {
      SetEdgeOverwrite(r, a, a, Edge(ts, w), Edge(ts, -w));
      SetEdgeSame(r, a, a, Edge(ts, -w));
    }
  }

  // -------------------------------------------------------------------
  // manage_nodes
  // -------------------------------------------------------------------

  /** The edge to x is newer than the cutoff. */
  predicate Fresh(items: map<Currency, Edge>, x: Currency, cutoff: int)
  {
    x in items && items[x].timestamp > cutoff
  }

  /** The keys of s, in order, whose edges are newer than the cutoff. */
  function KeepFresh(s: seq<Currency>, items: map<Currency, Edge>, cutoff: int): (r: seq<Currency>)
    ensures forall x :: x in r <==> x in s && x in items && items[x].timestamp > cutoff
  {
    if s == [] then []
    else
      var last := s[|s| - 1];
      KeepFresh(s[..|s| - 1], items, cutoff) + (if Fresh(items, last, cutoff) then [last] else [])
  }

  /** How many keys of s have edges at or before the cutoff. */
  function CountStale(s: seq<Currency>, items: map<Currency, Edge>, cutoff: int): (n: nat)
  {
    if s == [] then 0
    else
      var last := s[|s| - 1];
      CountStale(s[..|s| - 1], items, cutoff) + (if last in items && items[last].timestamp <= cutoff then 1 else 0)
  }

  /** Every key is either kept or counted as stale. */
  lemma {:induction false} KeptPlusStale(s: seq<Currency>, items: map<Currency, Edge>, cutoff: int)
    requires forall i :: 0 <= i < |s| ==> s[i] in items
    ensures |KeepFresh(s, items, cutoff)| + CountStale(s, items, cutoff) == |s|
  {
    if s != [] {
      KeptPlusStale(s[..|s| - 1], items, cutoff);
    }
  }

  /** Filtering a list of distinct keys keeps them distinct. */
  lemma {:induction false} KeepFreshDistinct(s: seq<Currency>, items: map<Currency, Edge>, cutoff: int)
    requires Distinct(s)
    ensures Distinct(KeepFresh(s, items, cutoff))
  {
    if s != [] {
      var p := s[..|s| - 1];
      var last := s[|s| - 1];
      KeepFreshDistinct(p, items, cutoff);
      var kp := KeepFresh(p, items, cutoff);
      assert last !in p;
      assert last !in kp;
      var r := KeepFresh(s, items, cutoff);
      forall i, j | 0 <= i < j < |r|
        ensures r[i] != r[j]
      {
        if j < |kp| {
          assert r[i] == kp[i] && r[j] == kp[j];
        } else {
          assert r[i] == kp[i] && kp[i] in kp && r[j] == last;
        }
      }
    }
  }

  /** One inner dict after its stale edges are deleted. */
  function FreshEdges(d: Dict<Currency, Edge>, cutoff: int): (r: Dict<Currency, Edge>)
    ensures forall x :: x in r.items <==> x in d.items && d.items[x].timestamp > cutoff
    ensures forall x :: x in r.items ==> r.items[x] == d.items[x]
  {
    Dict(KeepFresh(d.order, d.items, cutoff), map x | x in d.items && Fresh(d.items, x, cutoff) :: d.items[x])
  }

  /** Deleting keys keeps a dict well formed. */
  lemma FreshEdgesValid(d: Dict<Currency, Edge>, cutoff: int)
    requires d.Valid()
    ensures FreshEdges(d, cutoff).Valid()
  {
    KeepFreshDistinct(d.order, d.items, cutoff);
    var r := FreshEdges(d, cutoff);
    assert forall i :: 0 <= i < |r.order| ==> r.order[i] in r.order;
  }

  /** The graph after manage_nodes: the same vertices, each keeping its fresh edges. */
  function Evict(g: Graph<Currency>, cutoff: int): (r: Graph<Currency>)
    ensures r.order == g.order && r.items.Keys == g.items.Keys
  {
    Dict(g.order, map v | v in g.items :: FreshEdges(g.items[v], cutoff))
  }

  /** Eviction keeps the graph a well-formed dict of dicts. */
  lemma EvictValid(g: Graph<Currency>, cutoff: int)
    requires GraphValid(g)
    ensures GraphValid(Evict(g, cutoff))
  {
    forall v | v in g.items
      ensures Evict(g, cutoff).items[v].Valid()
    {
      FreshEdgesValid(g.items[v], cutoff);
    }
  }

  /** manage_nodes keeps exactly the edges newer than the cutoff, each with its quote. */
  lemma EvictEdges(g: Graph<Currency>, cutoff: int, u: Currency, v: Currency)
    ensures EdgeOf(Evict(g, cutoff), u, v) ==
      if EdgeOf(g, u, v).Some? && EdgeOf(g, u, v).value.timestamp > cutoff then EdgeOf(g, u, v) else None
  {
  }

  /** The number of edges manage_nodes deletes: the stale ones, vertex by vertex. */
  function StaleCount(g: Graph<Currency>, vs: seq<Currency>, cutoff: int): nat
  {
    if vs == [] then 0
    else
      var last := vs[|vs| - 1];
      StaleCount(g, vs[..|vs| - 1], cutoff)
        + if last in g.items then CountStale(g.items[last].order, g.items[last].items, cutoff) else 0
  }

  /** Eviction keeps every edge pointing at a vertex: no vertex is removed. */
  lemma EvictClosed(g: Graph<Currency>, cutoff: int)
    requires EdgesClosed(g)
    ensures EdgesClosed(Evict(g, cutoff))
  {
    var r := Evict(g, cutoff);
    forall u, v | u in r.items && v in r.items[u].items
      ensures v in r.items
    {
      EvictEdges(g, cutoff, u, v);
      assert EdgeOf(g, u, v).Some?;
    }
  }

  /** Filtering one more key appends it if it is fresh. */
  lemma KeepFreshSnoc(ks: seq<Currency>, j: int, items: map<Currency, Edge>, cutoff: int)
    requires 0 <= j < |ks|
    ensures KeepFresh(ks[..j + 1], items, cutoff)
      == KeepFresh(ks[..j], items, cutoff) + if Fresh(items, ks[j], cutoff) then [ks[j]] else []
  {
    assert ks[..j + 1][..j] == ks[..j];
  }

  /**
   * The inner dict of `one` after manage_nodes' inner loop has looked at the
   * first j keys of the snapshot `list(self.graph[one])`, deleting each one
   * whose edge is stamped at or before the cutoff.
   */
  function Swept(d0: Dict<Currency, Edge>, j: int, cutoff: int): Dict<Currency, Edge>
    requires 0 <= j <= |d0.order|
  {
    if j == 0 then d0
    else
      var d := Swept(d0, j - 1, cutoff);
      var two := d0.order[j - 1];
      if two in d.items && d.items[two].timestamp <= cutoff then Remove(d, two) else d
  }

  /**
   * Key by key, part way through the inner loop: a key keeps its quote, and
   * is present iff it is not yet looked at or it is fresh.
   */
  lemma {:induction false} SweptItems(d0: Dict<Currency, Edge>, j: int, cutoff: int, x: Currency)
    requires Distinct(d0.order) && 0 <= j <= |d0.order|
    ensures x in Swept(d0, j, cutoff).items <==>
      x in d0.items && (x !in d0.order[..j] || Fresh(d0.items, x, cutoff))
    ensures x in Swept(d0, j, cutoff).items ==> Swept(d0, j, cutoff).items[x] == d0.items[x]
  {
    var ks := d0.order;
    if j > 0 {
      var two := ks[j - 1];
      SweptItems(d0, j - 1, cutoff, x);
      SweptItems(d0, j - 1, cutoff, two);
      assert ks[..j] == ks[..j - 1] + [two];
      DistinctAt(ks, j - 1);
    }
  }

  /** Part way through the inner loop the order is the filtered prefix then the rest. */
  lemma {:induction false} SweptOrder(d0: Dict<Currency, Edge>, j: int, cutoff: int)
    requires d0.Valid() && 0 <= j <= |d0.order|
    ensures Swept(d0, j, cutoff).order == KeepFresh(d0.order[..j], d0.items, cutoff) + d0.order[j..]
  {
    if j == 0 {
      assert d0.order[..0] == [] && d0.order[0..] == d0.order;
    } else {
      SweptOrder(d0, j - 1, cutoff);
      SweptOrderStep(d0, j, cutoff);
    }
  }

  /** One step of SweptOrder's induction. */
  lemma SweptOrderStep(d0: Dict<Currency, Edge>, j: int, cutoff: int)
    requires Distinct(d0.order) && 0 < j <= |d0.order| && d0.order[j - 1] in d0.items
    requires Swept(d0, j - 1, cutoff).order == KeepFresh(d0.order[..j - 1], d0.items, cutoff) + d0.order[j - 1..]
    ensures Swept(d0, j, cutoff).order == KeepFresh(d0.order[..j], d0.items, cutoff) + d0.order[j..]
  {
    var ks := d0.order;
    var two := ks[j - 1];
    SweptItems(d0, j - 1, cutoff, two);
    DistinctAt(ks, j - 1);
    KeepFreshSnoc(ks, j - 1, d0.items, cutoff);
    assert ks[j - 1..] == [two] + ks[j..];
    StepOrder(Swept(d0, j - 1, cutoff), d0.items, two, KeepFresh(ks[..j - 1], d0.items, cutoff), ks[j..], cutoff);
  }

  /** The order after one step of the inner loop, on any dict of the right shape. */
  lemma StepOrder(d: Dict<Currency, Edge>, items: map<Currency, Edge>, two: Currency,
                  kf: seq<Currency>, rest: seq<Currency>, cutoff: int)
    requires d.order == kf + ([two] + rest) && two !in kf
    requires two in d.items && two in items && d.items[two] == items[two]
    ensures (if two in d.items && d.items[two].timestamp <= cutoff then Remove(d, two) else d).order
      == kf + (if Fresh(items, two, cutoff) then [two] else []) + rest
  {
    if !Fresh(items, two, cutoff) {
      assert d.order == kf + [two] + rest;
      RemoveAt(d, kf, two, rest);
    } else {
      assert d.order == kf + [two] + rest;
    }
  }

  /** The key the loop looks at next is still there, with its original quote. */
  lemma SweptAt(d0: Dict<Currency, Edge>, j: int, cutoff: int)
    requires d0.Valid() && 0 <= j < |d0.order|
    ensures d0.order[j] in Swept(d0, j, cutoff).items
    ensures Swept(d0, j, cutoff).items[d0.order[j]] == d0.items[d0.order[j]]
  {
    SweptItems(d0, j, cutoff, d0.order[j]);
    DistinctAt(d0.order, j);
  }

  /** After the whole snapshot, exactly the fresh edges are left, in their order. */
  lemma SweptAll(d0: Dict<Currency, Edge>, cutoff: int)
    requires d0.Valid()
    ensures Swept(d0, |d0.order|, cutoff) == FreshEdges(d0, cutoff)
  {
    var ks := d0.order;
    var r, f := Swept(d0, |ks|, cutoff), FreshEdges(d0, cutoff);
    SweptOrder(d0, |ks|, cutoff);
    assert ks[..|ks|] == ks && ks[|ks|..] == [];
    forall x
      ensures x in r.items <==> x in f.items
      ensures x in r.items ==> r.items[x] == f.items[x]
    {
      SweptItems(d0, |ks|, cutoff, x);
    }
    assert r.items == f.items;
  }

  /**
   * The graph after manage_nodes' outer loop has swept the first i vertices
   * of the snapshot `list(self.graph)`.
   */
  function SweptGraph(g0: Graph<Currency>, i: int, cutoff: int): Graph<Currency>
    requires 0 <= i <= |g0.order|
  {
    if i == 0 then g0
    else
      var g := SweptGraph(g0, i - 1, cutoff);
      var one := g0.order[i - 1];
      if one in g.items then Dict(g.order, g.items[one := FreshEdges(g.items[one], cutoff)]) else g
  }

  /** The outer loop keeps the order of the vertices. */
  lemma {:induction false} SweptGraphOrder(g0: Graph<Currency>, i: int, cutoff: int)
    requires 0 <= i <= |g0.order|
    ensures SweptGraph(g0, i, cutoff).order == g0.order
  {
    if i > 0 {
      SweptGraphOrder(g0, i - 1, cutoff);
    }
  }

  /** The closed form of SweptGraph, vertex by vertex: the first i are swept, the rest untouched. */
  lemma {:induction false} SweptGraphAtVertex(g0: Graph<Currency>, i: int, cutoff: int, v: Currency)
    requires Distinct(g0.order) && 0 <= i <= |g0.order|
    ensures v in SweptGraph(g0, i, cutoff).items <==> v in g0.items
    ensures v in g0.items ==>
      SweptGraph(g0, i, cutoff).items[v]
        == if v in g0.order[..i] then FreshEdges(g0.items[v], cutoff) else g0.items[v]
  {
    var vs := g0.order;
    if i > 0 {
      SweptGraphAtVertex(g0, i - 1, cutoff, v);
      var one := vs[i - 1];
      assert vs[..i] == vs[..i - 1] + [one];
      if v == one {
        SweptGraphAtVertex(g0, i - 1, cutoff, one);
        DistinctAt(vs, i - 1);
      }
    }
  }

  /** The vertex the outer loop looks at next is still untouched. */
  lemma SweptGraphAt(g0: Graph<Currency>, i: int, cutoff: int)
    requires GraphValid(g0) && 0 <= i < |g0.order|
    ensures SweptGraph(g0, i, cutoff).order == g0.order
    ensures g0.order[i] in SweptGraph(g0, i, cutoff).items
    ensures SweptGraph(g0, i, cutoff).items[g0.order[i]] == g0.items[g0.order[i]]
  {
    SweptGraphOrder(g0, i, cutoff);
    SweptGraphAtVertex(g0, i, cutoff, g0.order[i]);
    DistinctAt(g0.order, i);
  }

  /** After the whole snapshot the graph is Evict's. */
  lemma SweptGraphAll(g0: Graph<Currency>, cutoff: int)
    requires GraphValid(g0)
    ensures SweptGraph(g0, |g0.order|, cutoff) == Evict(g0, cutoff)
  {
    var n := |g0.order|;
    var r := SweptGraph(g0, n, cutoff);
    SweptGraphOrder(g0, n, cutoff);
    assert g0.order[..n] == g0.order;
    var e := Evict(g0, cutoff);
    forall v | v in g0.items
      ensures v in r.items && r.items[v] == FreshEdges(g0.items[v], cutoff)
    {
      SweptGraphAtVertex(g0, n, cutoff, v);
      assert v in g0.order;
    }
    forall v | v in r.items
      ensures v in g0.items
    {
      SweptGraphAtVertex(g0, n, cutoff, v);
    }
    assert r.items == e.items;
  }

  // -------------------------------------------------------------------
  // The sequence filter of listen
  // -------------------------------------------------------------------

  /** `(log_time - timestamp).total_seconds() < MSG_BUFFER` */
  predicate Accepts(logTime: int, timestamp: int)
  {
    logTime - timestamp < MsgBuffer
  }

  /** The graph and log_time after the quotes of one message, in order. */
  function Filtered(g: Graph<Currency>, logTime: int, quotes: seq<Quote>): (r: (Graph<Currency>, int))
    ensures r.0.items.Keys >= g.items.Keys
  {
    if quotes == [] then (g, logTime)
    else
      var (g', t') := Filtered(g, logTime, quotes[..|quotes| - 1]);
      var q := quotes[|quotes| - 1];
      if Accepts(t', q.timestamp) then (AddQuote(g', q.base, q.quoted, q.exchange, q.timestamp), q.timestamp)
      else (g', t')
  }

  /** The log_time the filter leaves after some quotes: it does not depend on the graph. */
  function LogTimeAfter(logTime: int, quotes: seq<Quote>): int
  {
    if quotes == [] then logTime
    else
      var t := LogTimeAfter(logTime, quotes[..|quotes| - 1]);
      if Accepts(t, quotes[|quotes| - 1].timestamp) then quotes[|quotes| - 1].timestamp else t
  }

  /** The filter's log_time is LogTimeAfter, whatever the graph. */
  lemma {:induction false} FilteredLogTimeAfter(g: Graph<Currency>, logTime: int, quotes: seq<Quote>)
    ensures Filtered(g, logTime, quotes).1 == LogTimeAfter(logTime, quotes)
  {
    if quotes != [] {
      FilteredLogTimeAfter(g, logTime, quotes[..|quotes| - 1]);
    }
  }

  /** The quote at i passes the filter, under the log_time the quotes before it left. */
  predicate AcceptedAt(logTime: int, quotes: seq<Quote>, i: int)
    requires 0 <= i < |quotes|
  {
    Accepts(LogTimeAfter(logTime, quotes[..i]), quotes[i].timestamp)
  }

  /** Dropping the last quote does not change whether an earlier one passes. */
  lemma AcceptedAtPrefix(logTime: int, quotes: seq<Quote>, j: int)
    requires 0 <= j < |quotes| - 1
    ensures AcceptedAt(logTime, quotes, j) == AcceptedAt(logTime, quotes[..|quotes| - 1], j)
  {
    assert quotes[..|quotes| - 1][..j] == quotes[..j];
  }

  /** No quote in quotes[from..] passes the filter. */
  predicate NoneAcceptedFrom(logTime: int, quotes: seq<Quote>, from: nat)
  {
    forall j :: from <= j < |quotes| ==> !AcceptedAt(logTime, quotes, j)
  }

  /** Dropping the last quote keeps "none passes from here on". */
  lemma NoneAcceptedPrefix(logTime: int, quotes: seq<Quote>, from: nat)
    requires quotes != [] && NoneAcceptedFrom(logTime, quotes, from)
    ensures NoneAcceptedFrom(logTime, quotes[..|quotes| - 1], from)
  {
    var p := quotes[..|quotes| - 1];
    forall j | from <= j < |p|
      ensures !AcceptedAt(logTime, p, j)
    {
      AcceptedAtPrefix(logTime, quotes, j);
    }
  }

  /** When no quote passes the filter, log_time ends as it began. */
  lemma {:induction false} NoneAcceptedLogTime(logTime: int, quotes: seq<Quote>)
    requires NoneAcceptedFrom(logTime, quotes, 0)
    ensures LogTimeAfter(logTime, quotes) == logTime
  {
    if quotes != [] {
      NoneAcceptedPrefix(logTime, quotes, 0);
      NoneAcceptedLogTime(logTime, quotes[..|quotes| - 1]);
      assert !AcceptedAt(logTime, quotes, |quotes| - 1);
    }
  }

  /** log_time ends as the timestamp of the last quote that passed the filter. */
  lemma {:induction false} LastAcceptedLogTime(logTime: int, quotes: seq<Quote>, i: nat)
    requires i < |quotes| && AcceptedAt(logTime, quotes, i) && NoneAcceptedFrom(logTime, quotes, i + 1)
    ensures LogTimeAfter(logTime, quotes) == quotes[i].timestamp
  {
    var p := quotes[..|quotes| - 1];
    if i < |quotes| - 1 {
      AcceptedAtPrefix(logTime, quotes, i);
      NoneAcceptedPrefix(logTime, quotes, i + 1);
      LastAcceptedLogTime(logTime, p, i);
      assert !AcceptedAt(logTime, quotes, |quotes| - 1);
    } else {
      assert p == quotes[..i];
    }
  }

  /**
   * log_time after the filter ends as it began when no quote passes, and
   * otherwise as the timestamp of the last quote that passed.
   */
  lemma FilteredLogTime(g: Graph<Currency>, logTime: int, quotes: seq<Quote>)
    ensures NoneAcceptedFrom(logTime, quotes, 0) ==> Filtered(g, logTime, quotes).1 == logTime
    ensures forall i: nat :: i < |quotes| && AcceptedAt(logTime, quotes, i) && NoneAcceptedFrom(logTime, quotes, i + 1) ==>
      Filtered(g, logTime, quotes).1 == quotes[i].timestamp
  {
    FilteredLogTimeAfter(g, logTime, quotes);
    if NoneAcceptedFrom(logTime, quotes, 0) {
      NoneAcceptedLogTime(logTime, quotes);
    }
    forall i: nat | i < |quotes| && AcceptedAt(logTime, quotes, i) && NoneAcceptedFrom(logTime, quotes, i + 1)
      ensures Filtered(g, logTime, quotes).1 == quotes[i].timestamp
    {
      LastAcceptedLogTime(logTime, quotes, i);
    }
  }

  /** The filter keeps the graph a well-formed dict of dicts. */
  lemma {:induction false} FilteredValid(g: Graph<Currency>, logTime: int, quotes: seq<Quote>)
    requires GraphValid(g)
    ensures GraphValid(Filtered(g, logTime, quotes).0)
  {
    if quotes != [] {
      var p := quotes[..|quotes| - 1];
      FilteredValid(g, logTime, p);
      var q := quotes[|quotes| - 1];
      AddQuoteValid(Filtered(g, logTime, p).0, q.base, q.quoted, q.exchange, q.timestamp);
    }
  }

  /** The filter keeps every edge pointing at a vertex. */
  lemma {:induction false} FilteredClosed(g: Graph<Currency>, logTime: int, quotes: seq<Quote>)
    requires EdgesClosed(g)
    ensures EdgesClosed(Filtered(g, logTime, quotes).0)
  {
    if quotes != [] {
      var p := quotes[..|quotes| - 1];
      FilteredClosed(g, logTime, p);
      var q := quotes[|quotes| - 1];
      AddQuoteClosed(Filtered(g, logTime, p).0, q.base, q.quoted, q.exchange, q.timestamp);
    }
  }

  /**
   * A quote repeated right after itself changes nothing more: the first
   * copy sets log_time to its timestamp, so the second is accepted and
   * re-adds the same edges.
   */
  lemma DuplicateHarmless(g: Graph<Currency>, logTime: int, quotes: seq<Quote>, q: Quote)
    ensures Filtered(g, logTime, quotes + [q, q]) == Filtered(g, logTime, quotes + [q])
  {
    var once := quotes + [q];
    var twice := quotes + [q, q];
    assert twice[..|twice| - 1] == once;
    assert once[..|once| - 1] == quotes;
    var (g1, t1) := Filtered(g, logTime, once);
    if Accepts(Filtered(g, logTime, quotes).1, q.timestamp) {
      AddQuoteIdempotent(Filtered(g, logTime, quotes).0, q.base, q.quoted, q.exchange, q.timestamp);
    }
  }

  // -------------------------------------------------------------------
  // The path part of arbitrage
  // -------------------------------------------------------------------

  /** The k-th currency met following pred back from money; None once a lookup fails. */
  function Back(pred: map<Currency, Option<Currency>>, money: Currency, k: nat): Option<Currency>
  {
    if k == 0 then Some(money)
    else
      match Back(pred, money, k - 1)
      case None => None
      case Some(x) => if x in pred then pred[x] else None
  }

  datatype PathError =
    | KeyError   // pred[...] of a currency with no entry, or of None
    | NoReturn   // the chain did not come back to money within the bound

  /** `records.reverse()` */
  function Reverse<T>(s: seq<T>): (r: seq<T>)
    ensures |r| == |s| && forall i :: 0 <= i < |s| ==> r[i] == s[|s| - 1 - i]
  {
    if s == [] then [] else Reverse(s[1..]) + [s[0]]
  }

  /**
   * The records of arbitrage: follow pred back from money until money comes
   * round again, then reverse, so that the path starts and ends with money
   * and each currency is the predecessor of the one after it.  The source
   * loops forever when the chain never returns; the bound `fuel` on the
   * number of steps stands in for that.
   */
  method ArbitragePath(pred: map<Currency, Option<Currency>>, money: Currency, fuel: nat)
    returns (r: Result<seq<Currency>, PathError>)
    ensures r.Ok? ==> |r.value| >= 2 && r.value[0] == money && r.value[|r.value| - 1] == money
    ensures r.Ok? ==> forall i, j :: 0 <= i && j == i + 1 && j < |r.value| ==>
      r.value[j] in pred && pred[r.value[j]] == Some(r.value[i])
    ensures r.Ok? ==> forall i :: 0 < i < |r.value| - 1 ==> r.value[i] != money
    ensures r == Err(KeyError) ==>
      exists k: nat :: Back(pred, money, k).None? && forall i :: 0 < i < k ==> Back(pred, money, i) != Some(money)
    ensures r == Err(NoReturn) ==> forall i :: 0 < i <= fuel ==> Back(pred, money, i) != Some(money)
  {
    var records := [money];
    if money !in pred {
      assert Back(pred, money, 1).None?;
      return Err(KeyError);
    }
    var last := pred[money];
    var k := 1;
    while last != Some(money)
      invariant 1 <= k && |records| == k
      invariant forall i :: 0 <= i < k ==> Back(pred, money, i) == Some(records[i]) && records[i] in pred
      invariant last == Back(pred, money, k)
      invariant forall i :: 0 < i < k ==> records[i] != money
      decreases fuel + 1 - k
    {
      if k > fuel {
        return Err(NoReturn);
      }
      if last.None? || last.value !in pred {
        assert Back(pred, money, k + 1).None?;
        return Err(KeyError);
      }
      records := records + [last.value];
      last := pred[last.value];
      k := k + 1;
    }
    records := records + [money];
    var path := Reverse(records);
    forall i, j | 0 <= i && j == i + 1 && j < |path|
      ensures path[j] in pred && pred[path[j]] == Some(path[i])
    {
      assert path[j] == records[k - j] && path[i] == records[k - j + 1];
      assert Back(pred, money, k - j) == Some(records[k - j]);
    }
    return Ok(path);
  }

  // -------------------------------------------------------------------
  // The subscriber's graph
  // -------------------------------------------------------------------

  class Lab3 {
    var graph: Graph<Currency>

    /** The graph is a well-formed dict of dicts whose edges lead to vertices. */
    ghost predicate Valid()
      reads this
    {
      GraphValid(graph) && EdgesClosed(graph)
    }

    /** `self.graph = {}` */
    constructor ()
      ensures Valid() && graph == Empty()
    {
      graph := Empty();
    }

    /** `add_node(money, quote)` with money = [a, b] and w = -log(price). */
    method AddNode(a: Currency, b: Currency, w: real, ts: int)
      requires Valid()
      modifies this
      ensures Valid() && graph == AddQuote(old(graph), a, b, w, ts)
    {
      AddQuoteValid(graph, a, b, w, ts);
      AddQuoteClosed(graph, a, b, w, ts);
      if a !in graph.items {
        graph := Put(graph, a, Empty());
      }
      graph := Put(graph, a, Put(graph.items[a], b, Edge(ts, w)));
      if b !in graph.items {
        graph := Put(graph, b, Empty());
      }
      graph := Put(graph, b, Put(graph.items[b], a, Edge(ts, -w)));
    }

    /**
     * `manage_nodes()` at time now: delete every edge stamped at or before
     * now - QUOTE_EXPIRY and count the deletions.
     */
    method ManageNodes(now: int) returns (count: nat)
      requires Valid()
      modifies this
      ensures Valid()
      ensures graph == Evict(old(graph), now - QuoteExpiry)
      ensures count == StaleCount(old(graph), old(graph).order, now - QuoteExpiry)
    {
      var cutoff := now - QuoteExpiry;
      ghost var g0 := graph;
      var vs := graph.order;
      count := 0;
      for i := 0 to |vs|
        invariant graph == SweptGraph(g0, i, cutoff)
        invariant count == StaleCount(g0, vs[..i], cutoff)
      {
        var one := vs[i];
        SweptGraphAt(g0, i, cutoff);
        var removed := EvictFrom(one, cutoff);
        count := count + removed;
        assert vs[..i + 1][..i] == vs[..i];
      }
      assert vs[..|vs|] == vs;
      SweptGraphAll(g0, cutoff);
      EvictValid(g0, cutoff);
      EvictClosed(g0, cutoff);
    }

    /** The inner loop of manage_nodes for one vertex: `for two in list(self.graph[one])`. */
    method EvictFrom(one: Currency, cutoff: int) returns (removed: nat)
      requires one in graph.items && graph.items[one].Valid()
      modifies this
      ensures graph.order == old(graph.order)
      ensures graph.items == old(graph.items)[one := FreshEdges(old(graph.items[one]), cutoff)]
      ensures removed == CountStale(old(graph.items[one].order), old(graph.items[one].items), cutoff)
    {
      ghost var g0 := graph;
      var d0 := graph.items[one];
      var ks := d0.order;
      removed := 0;
      for j := 0 to |ks|
        invariant graph.order == g0.order
        invariant graph.items == g0.items[one := Swept(d0, j, cutoff)]
        invariant removed == CountStale(ks[..j], d0.items, cutoff)
      {
        var two := ks[j];
        SweptAt(d0, j, cutoff);
        assert ks[..j + 1][..j] == ks[..j];
        if graph.items[one].items[two].timestamp <= cutoff {
          graph := Put(graph, one, Remove(graph.items[one], two));
          removed := removed + 1;
        }
      }
      assert ks[..|ks|] == ks;
      SweptAll(d0, cutoff);
    }

    /**
     * The quote loop of listen: a quote is accepted iff it is less than
     * MSG_BUFFER older than log_time; an accepted quote is added to the
     * graph and becomes log_time, a rejected one changes nothing.
     */
    method Receive(quotes: seq<Quote>, logTime0: int) returns (logTime: int)
      requires Valid()
      modifies this
      ensures Valid()
      ensures (graph, logTime) == Filtered(old(graph), logTime0, quotes)
    {
      logTime := logTime0;
      for i := 0 to |quotes|
        invariant Valid()
        invariant (graph, logTime) == Filtered(old(graph), logTime0, quotes[..i])
      {
        FilteredValid(old(graph), logTime0, quotes[..i + 1]);
        var quote := quotes[i];
        assert quotes[..i + 1][..i] == quotes[..i];
        if logTime - quote.timestamp < MsgBuffer {
          AddNode(quote.base, quote.quoted, quote.exchange, quote.timestamp);
          logTime := quote.timestamp;
        }
      }
      assert quotes[..|quotes|] == quotes;
    }
  }
}
