/** The repository's own test cases, each written as a method that records
    what the adapter reports and states the expected record as its
    postcondition, plus the general statement they illustrate. */
module Scenarios {
  import opened Producer
  import opened Prepeek

  /** What `peek`, `peek_nth(1)` and `peek_nth(2)` report now. */
  function Peeks<T>(p: Prepeek<T>): seq<Option<T>>
    reads p, p.ring
    requires p.Valid()
  {
    [p.Peek(), p.PeekNth(1), p.PeekNth(2)]
  }

  /** Depth 2 over [1, 2, 3]: `peeks[k]` holds offsets 0..2 after `k` advances. */
  method SimpleTrace() returns (nexts: seq<Option<int>>, peeks: seq<seq<Option<int>>>)
    ensures nexts == [Some(1), Some(2), Some(3)]
    ensures peeks == [[Some(1), Some(2), None], [Some(2), Some(3), None],
                      [Some(3), None, None], [None, None, None]]
  {
    var p := new Prepeek<int>([1, 2, 3], 2);
    peeks := [Peeks(p)];
    nexts := [];
    var v := p.Next();
    nexts, peeks := nexts + [v], peeks + [Peeks(p)];
    v := p.Next();
    nexts, peeks := nexts + [v], peeks + [Peeks(p)];
    v := p.Next();
    nexts, peeks := nexts + [v], peeks + [Peeks(p)];
  }

  /** Depth 0 over [1, 2, 3]: nothing can be peeked, and advancing passes the
      input straight through, then None. */
  method NoPrefetchTrace() returns (peeked: Option<int>, nexts: seq<Option<int>>)
    ensures peeked == None
    ensures nexts == [Some(1), Some(2), Some(3), None]
  {
    var p := new Prepeek<int>([1, 2, 3], 0);
    peeked := p.Peek();
    nexts := [];
    var v := p.Next();
    nexts := nexts + [v];
    v := p.Next();
    nexts := nexts + [v];
    v := p.Next();
    nexts := nexts + [v];
    v := p.Next();
    nexts := nexts + [v];
  }

  /** Depth 5 over [1, 2, 3]: after the three items are drained, every offset
      within the depth reads None; no stale value comes back. */
  method OverallocatedTrace() returns (nexts: seq<Option<int>>, peeks: seq<Option<int>>)
    ensures nexts == [Some(1), Some(2), Some(3)]
    ensures peeks == [None, None, None]
  {
    var p := new Prepeek<int>([1, 2, 3], 5);
    nexts := [];
    var v := p.Next();
    nexts := nexts + [v];
    v := p.Next();
    nexts := nexts + [v];
    v := p.Next();
    nexts := nexts + [v];
    assert p.iter.items == [1, 2, 3] && p.Position() == 3;
    peeks := [p.PeekNth(0), p.PeekNth(1), p.PeekNth(2)];
  }

  /** For any adapter and any offset below its depth, what is peeked at that
      offset now is what the advance after `n` others will return. */
  method PeekPredictsNext<T>(p: Prepeek<T>, n: nat) returns (peeked: Option<T>, got: Option<T>)
    requires p.Valid() && n < p.L
    modifies p, p.ring
    ensures peeked == got
  {
    peeked := p.PeekNth(n);
    var k := 0;
    while k < n
      invariant 0 <= k <= n
      invariant p.Valid()
      invariant p.iter.items == old(p.iter.items)
      invariant p.Position() == old(p.Position()) + k
    {
      var _ := p.Next();
      k := k + 1;
    }
    got := p.Next();
  }

  /** For any depth, a fresh adapter over `items` advanced `k >= |items|`
      times returns every item once and in order, then only None. */
  method Drain<T>(items: seq<T>, depth: nat, k: nat) returns (outs: seq<Option<T>>)
    requires |items| <= k
    ensures outs == seq(|items|, i requires 0 <= i < |items| => Some(items[i])) + seq(k - |items|, _ => None)
  {
    var p := new Prepeek<T>(items, depth);
    outs := [];
    var j := 0;
    while j < k
      invariant 0 <= j <= k
      invariant p.Valid() && p.iter.items == items
      invariant p.Position() == j
      invariant outs == Ahead(items, 0, j)
    {
      var v := p.Next();
      AheadExtend(items, 0, j);
      outs := outs + [v];
      j := j + 1;
    }
    Transparent(items, k);
  }
}
