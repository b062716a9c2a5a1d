/** The filter's window and the pages of `pkg/paging` together. */
module PagedFilter {
  import opened Common
  import opened GoValues
  import opened FieldCacher
  import opened FieldPathProofs
  import opened AndOfOrs
  import opened FilterSpec
  import opened Processor
  import opened Paging

  /** The first `k` elements, or all if there are fewer. */
  function Prefix<T>(s: seq<T>, k: nat): seq<T> { if k < |s| then s[..k] else s }

  lemma PrefixThenWindow<T>(hits: seq<T>, k: nat, size: nat)
    ensures Prefix(hits, k) + Window(hits, k, size) == Prefix(hits, k + size)
  {
    if k < |hits| {
      var end := if k + size < |hits| then k + size else |hits|;
      assert hits[..k] + hits[k..end] == hits[..end];
      assert hits[..|hits|] == hits;
    }
  }

  /** What one call of the filter leaves: the cells, the slice length and the results. */
  datatype Call = Call(after: seq<Value>, len: nat, n: nat, m: nat, read: nat, ending: Ending)

  /** The filter called with offset and page size of page `page`, on a copy of the slice. */
  ghost predicate PageCall(vs: seq<Outcome<bool>>, xs: seq<Value>, before: seq<Value>, total: uint, pageSize: uint,
                           page: uint, call: Call)
  {
    var p := New(page, pageSize, total);
    Filtered(vs, xs, p.offset, p.pageSize, before, call.after, call.len, call.n, call.m, call.read, call.ending)
  }

  /** The slices the calls leave, one after the other. */
  function Collected(calls: seq<Call>): seq<Value> {
    if calls == [] then []
    else
      var last := calls[|calls| - 1];
      Collected(calls[..|calls| - 1]) + Prefix(last.after, last.len)
  }

  /** One call leaves the window of its page and counts all matches. */
  lemma OnePage(vs: seq<Outcome<bool>>, xs: seq<Value>, before: seq<Value>, total: uint, pageSize: uint, page: uint,
                call: Call)
    requires |vs| == |xs| && Settled(vs) && PageCall(vs, xs, before, total, pageSize, page, call)
    requires Fits(pageSize, total) && 1 <= page <= New(1, pageSize, total).totalPages
    ensures call.m == |Kept(vs, xs)| && call.ending == Done
    ensures Prefix(call.after, call.len) ==
            Window(Kept(vs, xs), Times(page - 1, MinPageSize(pageSize)), MinPageSize(pageSize))
  {
    PageInRange(page, pageSize, total);
  }

  /** The k-th call has left the window of page k + 1. */
  ghost predicate LeavesPages(hits: seq<Value>, size: nat, calls: seq<Call>) {
    forall k :: 0 <= k < |calls| ==> Prefix(calls[k].after, calls[k].len) == Window(hits, Times(k, size), size)
  }

  lemma {:induction false} PagesArePrefix(hits: seq<Value>, size: nat, calls: seq<Call>)
    requires LeavesPages(hits, size, calls)
    ensures Collected(calls) == Prefix(hits, Times(|calls|, size))
  {
    if calls != [] {
      var n := |calls| - 1;
      PagesArePrefix(hits, size, calls[..n]);
      PrefixThenWindow(hits, Times(n, size), size);
    }
  }

  /** No page size the filter accepts makes the page count of a slice in memory wrap. */
  lemma FilterPagesFit(pageSize: uint, total: uint)
    requires pageSize <= 0x7fff_ffff && total < 0x8000_0000_0000_0000
    ensures Fits(pageSize, total)
  {
  }

  lemma EveryPage(vs: seq<Outcome<bool>>, xs: seq<Value>, before: seq<Value>, total: uint, pageSize: uint,
                  calls: seq<Call>)
    requires |vs| == |xs| && Settled(vs) && Fits(pageSize, total)
    requires |calls| <= New(1, pageSize, total).totalPages
    requires forall k :: 0 <= k < |calls| ==> PageCall(vs, xs, before, total, pageSize, k + 1, calls[k])
    ensures LeavesPages(Kept(vs, xs), MinPageSize(pageSize), calls)
  {
    forall k | 0 <= k < |calls|
      ensures Prefix(calls[k].after, calls[k].len) ==
              Window(Kept(vs, xs), Times(k, MinPageSize(pageSize)), MinPageSize(pageSize))
    {
      OnePage(vs, xs, before, total, pageSize, k + 1, calls[k]);
    }
  }

  lemma EveryCallCounts(vs: seq<Outcome<bool>>, xs: seq<Value>, before: seq<Value>, total: uint, pageSize: uint,
                        calls: seq<Call>)
    requires |vs| == |xs| && Settled(vs)
    requires |calls| < UINT
    requires forall k :: 0 <= k < |calls| ==> PageCall(vs, xs, before, total, pageSize, k + 1, calls[k])
    ensures forall k :: 0 <= k < |calls| ==> calls[k].m == |Kept(vs, xs)| && calls[k].ending == Done
  {
    forall k | 0 <= k < |calls| ensures calls[k].m == |Kept(vs, xs)| && calls[k].ending == Done {
      assert PageCall(vs, xs, before, total, pageSize, k + 1, calls[k]);
    }
  }

  /** Calling the filter once for each of the pages 1..TotalPages of the total match count,
      each time on a copy of the slice, leaves slices that together are exactly all
      matches, in order; and every call reports that total. */
  lemma PageByPageIsWhole(vs: seq<Outcome<bool>>, xs: seq<Value>, before: seq<Value>, pageSize: uint, calls: seq<Call>)
    requires |vs| == |xs| && Settled(vs) && |Kept(vs, xs)| < 0x8000_0000_0000_0000 && pageSize <= 0x7fff_ffff
    requires |calls| == New(1, pageSize, |Kept(vs, xs)|).totalPages
    requires forall k :: 0 <= k < |calls| ==> PageCall(vs, xs, before, |Kept(vs, xs)|, pageSize, k + 1, calls[k])
    ensures Collected(calls) == Kept(vs, xs)
    ensures forall k :: 0 <= k < |calls| ==> calls[k].m == |Kept(vs, xs)| && calls[k].ending == Done
  {
    var total := |Kept(vs, xs)|;
    FilterPagesFit(pageSize, total);
    EveryPage(vs, xs, before, total, pageSize, calls);
    EveryCallCounts(vs, xs, before, total, pageSize, calls);
    PagesArePrefix(Kept(vs, xs), MinPageSize(pageSize), calls);
    TotalPagesRight(MinPageSize(pageSize), total);
  }

  /** The same for calls that each start from whatever the cache then holds. */
  lemma CachedPagesAreWhole(w: World, tag: string, rules: Clauses, xs: seq<Value>, before: seq<Value>, pageSize: uint,
                            caches: seq<Cached>, calls: seq<Call>)
    requires KeysDetermine(w, tag) && InProgram(w, xs)
    requires Settled(Judgements(Judge(w, tag, rules), xs))
    requires |Hits(Judge(w, tag, rules), xs)| < 0x8000_0000_0000_0000 && pageSize <= 0x7fff_ffff
    requires |caches| == |calls| == New(1, pageSize, |Hits(Judge(w, tag, rules), xs)|).totalPages
    requires forall k :: 0 <= k < |calls| ==> Consistent(w, tag, caches[k])
    requires forall k :: 0 <= k < |calls| ==>
               PageCall(Verdicts(RuleStep(w, tag), caches[k], rules, xs), xs, before,
                        |Hits(Judge(w, tag, rules), xs)|, pageSize, k + 1, calls[k])
    ensures Collected(calls) == Hits(Judge(w, tag, rules), xs)
  {
    var vs := Judgements(Judge(w, tag, rules), xs);
    forall k | 0 <= k < |calls| ensures PageCall(vs, xs, before, |Kept(vs, xs)|, pageSize, k + 1, calls[k]) {
      CachedRunIsStateless(w, tag, caches[k], rules, xs);
    }
    PageByPageIsWhole(vs, xs, before, pageSize, calls);
  }
}
