/**
 `scan_ports` in `toolkit/port_scanner.py`: every port of the inclusive range is
 probed once, the probes finish in some order, the truthy results are collected
 and the collection is sorted. The connection attempt is the oracle `connect`,
 a future whose `result()` raises is the oracle `raises`, and the completion
 order is any arrangement of the range.
 */
module PortScanner {

  import opened Wrappers
  import opened Sorting

  /** Python's `range(lo, hi + 1)`: the ports `lo` to `hi` inclusive, ascending. */
  function Range(lo: int, hi: int): (r: seq<int>)
    ensures |r| == if lo <= hi then hi - lo + 1 else 0
    ensures forall i :: 0 <= i < |r| ==> r[i] == lo + i
    decreases hi - lo
  {
    if lo > hi then [] else [lo] + Range(lo + 1, hi)
  }

  /** Every port of the range occurs in it exactly once, and nothing else does. */
  lemma {:induction false} RangeOnce(lo: int, hi: int)
    ensures forall p :: multiset(Range(lo, hi))[p] == if lo <= p <= hi then 1 else 0
    decreases hi - lo
  {
    if lo <= hi {
      RangeOnce(lo + 1, hi);
      assert Range(lo, hi) == [lo] + Range(lo + 1, hi);
    }
  }

  /** `_check_port`: the port itself when the connection opens, `None` when any
      exception escapes the attempt. */
  function CheckPort(connect: int -> bool, port: int): (res: Option<int>)
    ensures res.Some? <==> connect(port)
    ensures res.Some? ==> res.value == port
  {
    if connect(port) then Some(port) else None
  }

  /** What `f.result()` does for one finished future. */
  datatype Outcome = Returned(res: Option<int>) | Raised

  /** The future submitted for `port`. */
  function Probe(connect: int -> bool, raises: int -> bool, port: int): Outcome {
    if raises(port) then Raised else Returned(CheckPort(connect, port))
  }

  /** Python's `if res:` on `int | None`: false for `None` and for `0`. */
  predicate Truthy(res: Option<int>) {
    res.Some? && res.value != 0
  }

  /** The loop body used with the progress bar: an exception turns into `None`
      before the truthiness test. Returns what is appended to `open_ports`. */
  function GatherShown(o: Outcome): (appended: seq<int>)
    ensures |appended| <= 1
    ensures appended != [] <==> o.Returned? && Truthy(o.res)
    ensures appended != [] ==> appended[0] == o.res.value
  {
    var res := if o.Raised? then None else o.res;
    if Truthy(res) then [res.value] else []
  }

  /** The loop body used without the progress bar: the truthiness test sits inside
      the `try` and an exception is swallowed. It appends what the other loop does. */
  function GatherQuiet(o: Outcome): (appended: seq<int>)
    ensures appended == GatherShown(o)
  {
    match o
    case Raised => []
    case Returned(res) => if Truthy(res) then [res.value] else []
  }

  /** A port whose probe result survives the truthiness test. */
  predicate Reported(connect: int -> bool, raises: int -> bool, port: int) {
    port != 0 && connect(port) && !raises(port)
  }

  /** `open_ports` after the `as_completed` loop, futures taken in `order`. */
  function Collected(connect: int -> bool, raises: int -> bool, order: seq<int>,
                     showProgress: bool): (found: seq<int>)
    ensures multiset(found) <= multiset(order)
    ensures forall p :: p in found <==> p in order && Reported(connect, raises, p)
    decreases |order|
  {
    if order == [] then
      []
    else
      var o := Probe(connect, raises, order[0]);
      var appended := if showProgress then GatherShown(o) else GatherQuiet(o);
      var rest := Collected(connect, raises, order[1..], showProgress);
      assert order == [order[0]] + order[1..];
      assert appended == [] || appended == [order[0]];
      appended + rest
  }

  /** The futures of the range may complete in any order, each exactly once. */
  ghost predicate IsCompletionOrder(order: seq<int>, start: int, end: int) {
    multiset(order) == multiset(Range(start, end))
  }

  /** `scan_ports(target, start, end)`: the sorted open ports of the range. */
  function ScanPorts(connect: int -> bool, raises: int -> bool, start: int, end: int,
                     order: seq<int>, showProgress: bool): (open: seq<int>)
    requires IsCompletionOrder(order, start, end)
    ensures StrictlyAscending(open)
    ensures forall p :: p in open <==> start <= p <= end && Reported(connect, raises, p)
    ensures start > end ==> open == []
  {
    var found := Collected(connect, raises, order, showProgress);
    var open := Sort(found);
    RangeOnce(start, end);
    assert AtMostOnce(open) by {
      forall x ensures multiset(open)[x] <= 1 {
        assert multiset(open)[x] == multiset(found)[x] <= multiset(order)[x];
      }
    }
    SortedOnceIsStrict(open);
    assert forall p :: p in open <==> p in multiset(found);
    assert forall p :: p in order <==> p in multiset(Range(start, end));
    open
  }

  /** The reference answer: the reported ports of `lo..hi`, filtered in range order. */
  function OpenPorts(connect: int -> bool, raises: int -> bool, lo: int, hi: int): (r: seq<int>)
    ensures StrictlyAscending(r)
    ensures forall p :: p in r <==> lo <= p <= hi && Reported(connect, raises, p)
    decreases hi - lo
  {
    if lo > hi then
      []
    else
      var rest := OpenPorts(connect, raises, lo + 1, hi);
      if Reported(connect, raises, lo) then
        var r := [lo] + rest;
        forall i, j | 0 <= i < j < |r| ensures r[i] < r[j] {
          assert r[j] == rest[j - 1] && r[j] in rest;
          if i > 0 {
            assert r[i] == rest[i - 1];
          }
        }
        r
      else
        rest
  }

  /** Whatever the completion order and whichever loop runs, the scan returns the
      reference list. */
  lemma ScanIsReference(connect: int -> bool, raises: int -> bool, start: int, end: int,
                        order: seq<int>, showProgress: bool)
    requires IsCompletionOrder(order, start, end)
    ensures ScanPorts(connect, raises, start, end, order, showProgress)
            == OpenPorts(connect, raises, start, end)
  {
    StrictUnique(ScanPorts(connect, raises, start, end, order, showProgress),
                 OpenPorts(connect, raises, start, end));
  }

  /** Two scans of the same range agree, however their futures completed. */
  lemma ScanIndependentOfOrder(connect: int -> bool, raises: int -> bool, start: int, end: int,
                               order1: seq<int>, order2: seq<int>, show1: bool, show2: bool)
    requires IsCompletionOrder(order1, start, end)
    requires IsCompletionOrder(order2, start, end)
    ensures ScanPorts(connect, raises, start, end, order1, show1)
            == ScanPorts(connect, raises, start, end, order2, show2)
  {
    ScanIsReference(connect, raises, start, end, order1, show1);
    ScanIsReference(connect, raises, start, end, order2, show2);
  }

  /** A future that raises counts as a closed port: the scan equals one in which
      nothing raises and those ports simply refuse the connection. */
  lemma RaiseActsAsClosed(connect: int -> bool, raises: int -> bool, start: int, end: int,
                          order: seq<int>, showProgress: bool)
    requires IsCompletionOrder(order, start, end)
    ensures ScanPorts(connect, raises, start, end, order, showProgress)
            == ScanPorts(p => connect(p) && !raises(p), p => false, start, end, order, showProgress)
  {
    StrictUnique(ScanPorts(connect, raises, start, end, order, showProgress),
                 ScanPorts(p => connect(p) && !raises(p), p => false, start, end, order, showProgress));
  }

}
