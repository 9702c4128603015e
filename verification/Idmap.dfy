// The isolated uid/gid range allocator: findIdmap (apollo/container_mercury.go).
module Idmap {
  import opened Wrappers

  // One taken range: shared.IdmapEntry with Hostid = base and Maprange = size.
  // `owner` names the container the range was read from; the search ignores it.
  datatype Entry = Entry(owner: string, base: int, size: int)

  function End(e: Entry): int { e.base + e.size }

  predicate SortedByHostid(es: seq<Entry>) {
    forall i, j :: 0 <= i < j < |es| ==> es[i].base <= es[j].base
  }

  ghost predicate Holds(e: Entry, id: int) { e.base <= id < End(e) }

  // Two ranges share a host id.
  ghost predicate Overlap(a: Entry, b: Entry) { exists id :: Holds(a, id) && Holds(b, id) }

  // The window [w, w + len) meets none of the ranges.
  ghost predicate Free(w: int, len: int, es: seq<Entry>) {
    forall e, id :: e in es && w <= id < w + len ==> !Holds(e, id)
  }

  // The plain gap scan that the loop refines: `prevEnd` is the end of the
  // previous range, and every gap must leave at least one id unused.
  function GapScan(prevEnd: int, es: seq<Entry>, limit: int, size: int): Option<int>
    decreases es
  {
    if es == [] then
      if prevEnd + size < limit then Some(prevEnd) else None
    else if prevEnd + size < es[0].base then Some(prevEnd)
    else GapScan(End(es[0]), es[1..], limit, size)
  }

  // Only the gap before the first range may be filled exactly.
  function FirstFit(start: int, es: seq<Entry>, limit: int, size: int): Option<int> {
    if es == [] then GapScan(start, es, limit, size)
    else if start + size <= es[0].base then Some(start)
    else GapScan(End(es[0]), es[1..], limit, size)
  }

  // ---------------------------------------------------------------- the code

  function InsertAt(s: seq<Entry>, j: nat, e: Entry): seq<Entry>
    requires j <= |s|
  {
    s[..j] + [e] + s[j..]
  }

  lemma InsertAtKeepsElements(s: seq<Entry>, j: nat, e: Entry)
    requires j <= |s|
    ensures multiset(InsertAt(s, j, e)) == multiset(s) + multiset{e}
  {
    assert s == s[..j] + s[j..];
  }

  method InsertSorted(s: seq<Entry>, e: Entry) returns (r: seq<Entry>)
    requires SortedByHostid(s)
    ensures SortedByHostid(r) && multiset(r) == multiset(s) + multiset{e}
  {
    var j := 0;
    while j < |s| && s[j].base <= e.base
      invariant 0 <= j <= |s|
      invariant forall k :: 0 <= k < j ==> s[k].base <= e.base
    {
      j := j + 1;
    }
    InsertAtKeepsElements(s, j, e);
    r := InsertAt(s, j, e);
  }

  // sort.Sort(ByHostid). Callers rely on the contract alone, which leaves the
  // order of equal bases open, as the library does.
  method SortByHostid(es: seq<Entry>) returns (s: seq<Entry>)
    ensures multiset(s) == multiset(es)
    ensures SortedByHostid(s)
  {
    s := [];
    for i := 0 to |es|
      invariant multiset(s) == multiset(es[..i])
      invariant SortedByHostid(s)
    {
      assert es[..i + 1] == es[..i] + [es[i]];
      s := InsertSorted(s, es[i]);
    }
    assert es[..|es|] == es;
  }

  // The loop over the sorted entries. Its second test is dead: after entry i-1
  // the offset is always that entry's end, whatever the entries are.
  method FindOffset(es: seq<Entry>, hostid: int, maprange: int, size: int) returns (r: Option<int>)
    ensures r == FirstFit(hostid + 65536, es, hostid + maprange, size)
  {
    var offset := hostid + 65536;
    var i := 0;
    while i < |es|
      invariant 0 <= i <= |es|
      invariant i == 0 ==> offset == hostid + 65536
      invariant i > 0 ==> offset == End(es[i - 1])
      invariant i > 0 ==> FirstFit(hostid + 65536, es, hostid + maprange, size)
                          == GapScan(offset, es[i..], hostid + maprange, size)
    {
      if i == 0 {
        if es[0].base < offset + size {
          offset := es[0].base + es[0].size;
          i := i + 1;
          continue;
        }
        return Some(offset);
      }
      if es[i - 1].base + es[i - 1].size > offset {
        assert false;
      }
      offset := es[i - 1].base + es[i - 1].size;
      if offset + size < es[i].base {
        return Some(offset);
      }
      offset := es[i].base + es[i].size;
      i := i + 1;
    }
    if offset + size < hostid + maprange {
      return Some(offset);
    }
    return None;
  }

  // ------------------------------------------------- what one search promises

  // Every range is non-empty, lies in [start, limit), and no two share an id.
  ghost predicate Separate(start: int, limit: int, es: seq<Entry>) {
    && (forall e :: e in es ==> e.size > 0 && start <= e.base && End(e) <= limit)
    && (forall i, j :: 0 <= i < j < |es| ==> !Overlap(es[i], es[j]))
  }

  // Sorted, non-empty, disjoint ranges follow one another.
  lemma SeparateInOrder(start: int, limit: int, es: seq<Entry>, i: nat, j: nat)
    requires SortedByHostid(es) && Separate(start, limit, es) && i < j < |es|
    ensures End(es[i]) <= es[j].base
  {
    assert !Overlap(es[i], es[j]);
    assert !(Holds(es[i], es[j].base) && Holds(es[j], es[j].base));
    assert es[j] in es;
  }

  lemma {:induction false} GapScanIsSafe(prevEnd: int, es: seq<Entry>, limit: int, size: int, start: int)
    requires SortedByHostid(es) && Separate(start, limit, es) && size >= 0
    requires es != [] ==> prevEnd <= es[0].base
    requires GapScan(prevEnd, es, limit, size).Some?
    ensures var b := GapScan(prevEnd, es, limit, size).value;
            && prevEnd <= b && b + size <= limit && Free(b, size, es)
    decreases es
  {
    if es != [] {
      assert es[0] in es && es == [es[0]] + es[1..];
      if prevEnd + size >= es[0].base {
        if |es| > 1 { SeparateInOrder(start, limit, es, 0, 1); }
        GapScanIsSafe(End(es[0]), es[1..], limit, size, start);
      }
    }
  }

  // Safety: the new range lies in [start, limit) and meets no taken range.
  lemma FirstFitIsSafe(start: int, es: seq<Entry>, limit: int, size: int)
    requires SortedByHostid(es) && Separate(start, limit, es) && size >= 0
    requires FirstFit(start, es, limit, size).Some?
    ensures var b := FirstFit(start, es, limit, size).value;
            && start <= b && b + size <= limit && Free(b, size, es)
  {
    if es == [] {
      GapScanIsSafe(start, es, limit, size, start);
    } else {
      assert es[0] in es && es == [es[0]] + es[1..];
      if start + size > es[0].base {
        if |es| > 1 { SeparateInOrder(start, limit, es, 0, 1); }
        GapScanIsSafe(End(es[0]), es[1..], limit, size, start);
      }
    }
  }

  // A free window that does not fit before the first range comes after it.
  lemma FreeWindowSkipsHead(es: seq<Entry>, w: int, len: int)
    requires es != [] && es[0].size > 0 && Free(w, len, es) && w + len > es[0].base && len > 0
    ensures End(es[0]) <= w && Free(w, len, es[1..])
  {
    assert es[0] in es && !(w <= es[0].base && Holds(es[0], es[0].base));
    assert !Holds(es[0], w);
    assert forall e :: e in es[1..] ==> e in es;
  }

  // A window with one id to spare is never passed over.
  lemma {:induction false} GapScanIsFirst(prevEnd: int, es: seq<Entry>, limit: int, size: int, w: int)
    requires forall e :: e in es ==> e.size > 0
    requires size >= 0 && prevEnd <= w && w + size + 1 <= limit && Free(w, size + 1, es)
    ensures GapScan(prevEnd, es, limit, size).Some? && GapScan(prevEnd, es, limit, size).value <= w
    decreases es
  {
    if es != [] && prevEnd + size >= es[0].base {
      FreeWindowSkipsHead(es, w, size + 1);
      GapScanIsFirst(End(es[0]), es[1..], limit, size, w);
    }
  }

  // First fit and completeness in one: whenever some window of size + 1 ids is
  // free, the search succeeds, at that window or an earlier base. So a failure
  // means that no such window exists, and no base before the answer has one.
  lemma FirstFitIsFirst(start: int, es: seq<Entry>, limit: int, size: int, w: int)
    requires forall e :: e in es ==> e.size > 0
    requires size >= 0 && start <= w && w + size + 1 <= limit && Free(w, size + 1, es)
    ensures FirstFit(start, es, limit, size).Some? && FirstFit(start, es, limit, size).value <= w
  {
    if es == [] || start + size > es[0].base {
      if es != [] { FreeWindowSkipsHead(es, w, size + 1); }
      GapScanIsFirst(if es == [] then start else End(es[0]), if es == [] then [] else es[1..], limit, size, w);
    }
  }

  // Between ranges, and at the end, the scan takes a base with an id to spare.
  lemma {:induction false} GapScanHasSlack(prevEnd: int, es: seq<Entry>, limit: int, size: int, start: int)
    requires SortedByHostid(es) && Separate(start, limit, es) && size >= 0
    requires es != [] ==> prevEnd <= es[0].base
    requires GapScan(prevEnd, es, limit, size).Some?
    ensures var b := GapScan(prevEnd, es, limit, size).value;
            prevEnd <= b && b + size + 1 <= limit && Free(b, size + 1, es)
    decreases es
  {
    if es != [] {
      assert es[0] in es && es == [es[0]] + es[1..];
      if prevEnd + size >= es[0].base {
        if |es| > 1 { SeparateInOrder(start, limit, es, 0, 1); }
        GapScanHasSlack(End(es[0]), es[1..], limit, size, start);
      }
    }
  }

  ghost predicate FreeWithin(w: int, len: int, es: seq<Entry>, start: int, limit: int) {
    start <= w && w + len <= limit && Free(w, len, es)
  }

  ghost predicate HasRoom(start: int, es: seq<Entry>, limit: int, len: int) {
    exists w :: FreeWithin(w, len, es, start, limit)
  }

  // A search over sorted, disjoint, non-empty ranges succeeds exactly when some
  // window with one id to spare is free, or the ids before the first range are
  // exactly enough.
  lemma FitsExactly(start: int, es: seq<Entry>, limit: int, size: int)
    requires SortedByHostid(es) && Separate(start, limit, es) && size >= 0
    ensures FirstFit(start, es, limit, size).Some? <==>
              (es != [] && start + size == es[0].base) || HasRoom(start, es, limit, size + 1)
  {
    if HasRoom(start, es, limit, size + 1) {
      var w :| FreeWithin(w, size + 1, es, start, limit);
      FirstFitIsFirst(start, es, limit, size, w);
    }
    if FirstFit(start, es, limit, size).Some? && (es == [] || start + size != es[0].base) {
      var b := FirstFit(start, es, limit, size).value;
      if es == [] {
        GapScanHasSlack(start, es, limit, size, start);
      } else {
        assert es[0] in es && es == [es[0]] + es[1..];
        if start + size > es[0].base {
          if |es| > 1 { SeparateInOrder(start, limit, es, 0, 1); }
          GapScanHasSlack(End(es[0]), es[1..], limit, size, start);
        }
      }
      assert FreeWithin(b, size + 1, es, start, limit);
    }
  }
}
