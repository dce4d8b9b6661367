/** Overflow chains: a long payload cut into page-sized chunks, written, read back and freed. */
module OverflowChain {
  import opened Bytes
  import opened PageFormat
  import opened PageStore
  import opened TreeSpec

  ghost function PagesOf(chain: seq<nat>): set<nat> {
    set p | p in chain
  }

  /** A chain whose last page is allocated but not written yet. */
  ghost predicate Building(
    ps: nat, before: map<nat, Node>, nodes: map<nat, Node>, chain: seq<nat>, chunks: seq<seq<byte>>)
  {
    && 0 < |chain| <= |chunks| && NoDup(chain)
    && PagesOf(chain) !! before.Keys && nodes.Keys == before.Keys + PagesOf(chain)
    && (forall p :: p in before ==> nodes[p] == before[p])
    && forall j :: 0 <= j < |chain| - 1 ==> chain[j] in nodes && ChunkPage(ps, nodes[chain[j]], chain[j + 1], chunks[j])
  }

  /** A complete chain on pages that were not in use before; every page in use before is untouched. */
  ghost predicate Built(
    ps: nat, before: map<nat, Node>, nodes: map<nat, Node>, chain: seq<nat>, chunks: seq<seq<byte>>)
  {
    && chain != [] && NoDup(chain)
    && PagesOf(chain) !! before.Keys && nodes.Keys == before.Keys + PagesOf(chain)
    && (forall p :: p in before ==> nodes[p] == before[p])
    && ChainRepr(ps, nodes, chain, chunks)
  }

  lemma BuildStart(ps: nat, before: map<nat, Node>, first: nat, chunks: seq<seq<byte>>)
    requires first !in before && chunks != []
    ensures Building(ps, before, before[first := Blank], [first], chunks)
  {
  }

  lemma LastInNodes(ps: nat, before: map<nat, Node>, nodes: map<nat, Node>, chain: seq<nat>, chunks: seq<seq<byte>>)
    requires Building(ps, before, nodes, chain, chunks)
    ensures chain[|chain| - 1] in nodes
  {
  }

  lemma BuildStep(
      ps: nat, before: map<nat, Node>, nodes: map<nat, Node>, chain: seq<nat>, chunks: seq<seq<byte>>, next: nat,
      page: Node)
    requires Building(ps, before, nodes, chain, chunks) && next !in nodes && |chain| < |chunks|
    requires ChunkPage(ps, page, next, chunks[|chain| - 1])
    ensures Building(ps, before, nodes[next := Blank][chain[|chain| - 1] := page], chain + [next], chunks)
  {
  }

  lemma BuildLast(
      ps: nat, before: map<nat, Node>, nodes: map<nat, Node>, chain: seq<nat>, chunks: seq<seq<byte>>, page: Node)
    requires Building(ps, before, nodes, chain, chunks) && |chain| == |chunks|
    requires ChunkPage(ps, page, 0, chunks[|chain| - 1])
    ensures var nodes' := nodes[chain[|chain| - 1] := page];
            Built(ps, before, nodes', chain, chunks)
  {
  }

  lemma ChunksStep(payload: seq<byte>, d: nat)
    requires d > 0
    ensures |payload| <= d ==> Chunks(payload, d) == [payload]
    ensures |payload| > d ==>
      Chunks(payload, d)[0] == payload[..d] && Chunks(payload, d)[1..] == Chunks(payload[d..], d)
  {
  }

  /** `write_overflow_chain`. */
  method WriteChain(pager: Pager, payload: seq<byte>) returns (first: nat, ghost chain: seq<nat>)
    requires pager.Valid() && payload != []
    requires pager.total + |Chunks(payload, pager.ps - 4)| <= MAX_PAGES
    modifies pager
    ensures pager.Valid() && pager.total <= old(pager.total) + |Chunks(payload, pager.ps - 4)|
    ensures Built(pager.ps, old(pager.nodes), pager.nodes, chain, Chunks(payload, pager.ps - 4)) && chain[0] == first
  {
    hide Pager.Valid, ChunkPage, ChainRepr, NoDup, PagesOf;
    pager.Facts();
    var d := pager.ps - 4;
    ghost var chunks, before := Chunks(payload, d), pager.nodes;
    var r := pager.Allocate();
    first := r.value;
    chain := [first];
    BuildStart(pager.ps, before, first, chunks);
    var cur, rest, more := first, payload, true;
    while more
      invariant pager.Valid() && rest != []
      invariant pager.total <= old(pager.total) + |chain| && 0 < |chain| <= |chunks| && chain[0] == first
      invariant more ==> cur == chain[|chain| - 1] && Chunks(rest, d) == chunks[|chain| - 1..]
      invariant more ==> Building(pager.ps, before, pager.nodes, chain, chunks)
      invariant !more ==> Built(pager.ps, before, pager.nodes, chain, chunks)
      decreases more, |rest|
    {
      ChunksStep(rest, d);
      LastInNodes(pager.ps, before, pager.nodes, chain, chunks);
      ghost var nodes, i := pager.nodes, |chain| - 1;
      assert chunks[i] == chunks[i..][0];
      if |rest| > d {
        assert chunks[i + 1..] == chunks[i..][1..];
        var r := pager.Allocate();
        pager.WriteOverflow(cur, r.value, rest[..d]);
        BuildStep(pager.ps, before, nodes, chain, chunks, r.value, pager.nodes[cur]);
        chain := chain + [r.value];
        cur, rest := r.value, rest[d..];
      } else {
        assert |chunks[i..]| == 1;
        pager.WriteOverflow(cur, 0, rest);
        BuildLast(pager.ps, before, nodes, chain, chunks, pager.nodes[cur]);
        more := false;
      }
    }
  }

  lemma Regroup(r: seq<byte>, rest: seq<byte>, k: nat)
    requires k <= |rest|
    ensures r + rest == (r + rest[..k]) + rest[k..]
  {
  }

  lemma ReadStep(chunks: seq<seq<byte>>, i: nat, rest: seq<byte>, d: nat, data: seq<byte>)
    requires d > 0 && i < |chunks| && Chunks(rest, d) == chunks[i..] && chunks[i] <= data
    ensures var k := if |rest| <= d then |rest| else d;
            && k <= |data| && data[..k] == rest[..k]
            && (|rest| > d ==> i + 1 < |chunks| && Chunks(rest[k..], d) == chunks[i + 1..])
  {
  }

  /** The overflow branch of `read_cell_payload`: whatever was written is read back. */
  method ReadChain(
      pager: Pager, first: nat, total: nat, ghost chain: seq<nat>, ghost payload: seq<byte>) returns (r: seq<byte>)
    requires pager.Valid() && payload != [] && total == |payload|
    requires ChainRepr(pager.ps, pager.nodes, chain, Chunks(payload, pager.ps - 4)) && chain[0] == first
    ensures r == payload
  {
    hide Pager.Valid, ChainRepr, Chunks;
    pager.Facts();
    var d := pager.ps - 4;
    ghost var chunks := Chunks(payload, d);
    assert chunks[0..] == chunks;
    ChainLength(pager.ps, pager.nodes, chain, chunks);
    ChainPage(pager.ps, pager.nodes, chain, chunks, 0);
    r := [];
    var cur := first;
    ghost var i: nat := 0;
    ghost var rest := payload;
    while cur != 0 && |r| < total
      invariant payload == r + rest
      invariant rest != [] ==> i < |chain| && cur == chain[i] != 0 && Chunks(rest, d) == chunks[i..]
      decreases total - |r|
    {
      ChainPage(pager.ps, pager.nodes, chain, chunks, i);
      var remaining := total - |r|;
      var next, data := pager.ReadOverflow(cur);
      var k := if remaining <= d then remaining else d;
      ReadStep(chunks, i, rest, d, data);
      Regroup(r, rest, k);
      r, rest := r + data[..k], rest[k..];
      cur, i := next, i + 1;
      if rest != [] {
        ChainPage(pager.ps, pager.nodes, chain, chunks, i);
      }
    }
  }

  lemma ChainLength(ps: nat, nodes: map<nat, Node>, chain: seq<nat>, chunks: seq<seq<byte>>)
    requires ChainRepr(ps, nodes, chain, chunks)
    ensures |chain| == |chunks|
  {
  }

  /** `free_overflow_chain` returns exactly the chain's own pages to the pool. */
  method FreeChain(pager: Pager, first: nat, ghost chain: seq<nat>, ghost chunks: seq<seq<byte>>)
    requires pager.Valid() && chain != [] && chain[0] == first && NoDup(chain)
    requires ChainRepr(pager.ps, pager.nodes, chain, chunks)
    modifies pager
    ensures pager.Valid() && pager.total == old(pager.total)
    ensures pager.nodes == old(pager.nodes) - PagesOf(chain)
  {
    hide Pager.Valid, ChainRepr;
    pager.Facts();
    var cur := first;
    ghost var i: nat := 0;
    ghost var before := pager.nodes;
    while cur != 0
      invariant pager.Valid() && i <= |chain| && pager.total == old(pager.total)
      invariant cur == if i < |chain| then chain[i] else 0
      invariant pager.nodes == before - PagesOf(chain[..i])
      decreases |chain| - i
    {
      ChainPage(pager.ps, before, chain, chunks, i);
      assert cur !in PagesOf(chain[..i]);
      assert pager.nodes[cur] == before[cur];
      var next, data := pager.ReadOverflow(cur);
      pager.FreePage(cur);
      assert PagesOf(chain[..i + 1]) == PagesOf(chain[..i]) + {cur};
      cur, i := next, i + 1;
    }
    if i < |chain| {
      ChainPage(pager.ps, before, chain, chunks, i);
    }
    assert chain[..i] == chain;
  }
}
