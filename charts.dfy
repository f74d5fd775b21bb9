/** The chart refresh: the shared x axis, the series re-plotted from the
    histories and the axis limits, fixed for CPU and memory and autoscaled
    for the network. */
module Charts {

  /** Python's `range(lo, hi)`. */
  function Range(lo: int, hi: int): (r: seq<int>)
    ensures |r| == if lo < hi then hi - lo else 0
    ensures forall i :: 0 <= i < |r| ==> r[i] == lo + i
    decreases hi - lo
  {
    if lo >= hi then [] else [lo] + Range(lo + 1, hi)
  }

  /** Python's `max` of a non-empty list. */
  function MaxOf(s: seq<real>): (m: real)
    requires s != []
    ensures m in s
    ensures forall i :: 0 <= i < |s| ==> s[i] <= m
  {
    if |s| == 1 then s[0]
    else
      var rest := MaxOf(s[1..]);
      if s[0] >= rest then s[0] else rest
  }

  /** The network y-axis maximum: 1.4 times the largest rate, at least 10. */
  function NetYMax(yNet: seq<real>): (r: real)
    ensures r >= 10.0
    ensures forall i :: 0 <= i < |yNet| ==> r >= yNet[i] * 1.4
    ensures r == 10.0 || (yNet == [] && r == 14.0) || exists i :: 0 <= i < |yNet| && r == yNet[i] * 1.4
  {
    var maxNet := if yNet != [] then MaxOf(yNet) else 10.0;
    if 10.0 >= maxNet * 1.4 then 10.0 else maxNet * 1.4
  }

  /** What one refresh gives to the three line plots and their axes. */
  datatype ChartFrame = ChartFrame(
    x: seq<int>,
    yCpu: seq<real>, yMem: seq<real>, yNet: seq<real>,
    xMin: int, xMax: int,
    cpuYLim: (real, real), memYLim: (real, real), netYLim: (real, real))

  /** `_refresh_plots` over the histories read oldest first. The source takes
      `min(x)` of the axis, which needs at least one entry. */
  function Frame(cpu: seq<real>, mem: seq<real>, net: seq<real>): (f: ChartFrame)
    requires cpu != []
    ensures |f.x| == |cpu| && f.x[|cpu| - 1] == 0
    ensures forall i :: 0 <= i < |f.x| ==> f.x[i] == i - |cpu| + 1
    ensures f.yCpu == cpu && f.yMem == mem && f.yNet == net
    ensures f.xMin == 1 - |cpu| && f.xMax == 0
    ensures forall i :: 0 <= i < |f.x| ==> f.xMin <= f.x[i] <= f.xMax
    ensures f.cpuYLim == (0.0, 100.0) && f.memYLim == (0.0, 100.0)
    ensures f.netYLim.0 == 0.0 && f.netYLim.1 == NetYMax(net)
  {
    var x := Range(-|cpu| + 1, 1);
    ChartFrame(x, cpu, mem, net, x[0], x[|x| - 1], (0.0, 100.0), (0.0, 100.0), (0.0, NetYMax(net)))
  }
}
