/** The widget's own state: the three metric histories, the network counter
    snapshot the collector keeps between cycles, and the bar presenter. One
    call of CollectStep is one iteration of the collector loop, with the
    sensor readings passed in. */
module Pulse {
  import opened MetricHistory
  import opened Sampling
  import opened Bars
  import opened Charts

  class SystemPulse {
    const cpuHistory: History
    const memHistory: History
    const netHistory: History
    const presenter: Presenter
    /** The counters read on the previous cycle (`prev_net`). */
    var prevNet: NetCounters

    ghost predicate Valid()
      reads this, cpuHistory, cpuHistory.data, memHistory, memHistory.data,
            netHistory, netHistory.data, presenter
    {
      && cpuHistory.Valid() && memHistory.Valid() && netHistory.Valid()
      && cpuHistory != memHistory && cpuHistory != netHistory && memHistory != netHistory
      && cpuHistory.data != memHistory.data && cpuHistory.data != netHistory.data
      && memHistory.data != netHistory.data
      && presenter.Valid()
    }

    /** The histories start as HISTORY_LEN zeros; `initialNet` is the counter
        snapshot taken before the first cycle. */
    constructor (initialNet: NetCounters)
      ensures Valid()
      ensures fresh(cpuHistory) && fresh(memHistory) && fresh(netHistory) && fresh(presenter)
      ensures fresh(cpuHistory.data) && fresh(memHistory.data) && fresh(netHistory.data)
      ensures cpuHistory.Pushed == [] && memHistory.Pushed == [] && netHistory.Pushed == []
      ensures cpuHistory.Contents() == Zeros(HISTORY_LEN) && memHistory.Contents() == Zeros(HISTORY_LEN)
      ensures netHistory.Contents() == Zeros(HISTORY_LEN)
      ensures prevNet == initialNet
      ensures presenter.styleColour == AQUA && presenter.info == Blank
      ensures forall n :: n in BAR_NAMES ==> presenter.bars[n] == 0.0
    {
      cpuHistory := new History();
      memHistory := new History();
      netHistory := new History();
      presenter := new Presenter();
      prevNet := initialNet;
    }

    /** One collector cycle: average the disks, take the network delta and
        replace the snapshot, read the battery, append cpu, mem and the rate
        to their histories, and return what is handed to `_update_ui`. */
    method CollectStep(cpu: real, mem: real, partitions: PartitionsRead,
                       netNow: NetCounters, battery: BatteryRead) returns (s: Sample)
      requires Valid()
      modifies this, cpuHistory, cpuHistory.data, memHistory, memHistory.data,
               netHistory, netHistory.data
      ensures Valid()
      ensures s == SampleOf(cpu, mem, partitions, old(prevNet), netNow, battery)
      ensures prevNet == netNow
      ensures cpuHistory.Pushed == old(cpuHistory.Pushed) + [cpu]
      ensures memHistory.Pushed == old(memHistory.Pushed) + [mem]
      ensures netHistory.Pushed == old(netHistory.Pushed) + [s.netKbs]
      ensures cpuHistory.Contents() == old(cpuHistory.Contents())[1..] + [cpu]
      ensures memHistory.Contents() == old(memHistory.Contents())[1..] + [mem]
      ensures netHistory.Contents() == old(netHistory.Contents())[1..] + [s.netKbs]
    {
      var disk, drives := AverageDisk(partitions);

      var bytesDiff := (netNow.bytesSent + netNow.bytesRecv) - (prevNet.bytesSent + prevNet.bytesRecv);
      prevNet := netNow;
      var netKbs := bytesDiff as real / 1024.0;

      var batText, batValue;
      match battery {
        case Battery(pc, t, plugged) =>
          batText := t + "% " + (if plugged then "(Charging)" else "");
          batValue := pc;
        case _ =>
          batText := "N/A";
          batValue := 0.0;
      }

      cpuHistory.Append(cpu);
      memHistory.Append(mem);
      netHistory.Append(netKbs);

      s := Sample(cpu, mem, disk, netKbs, batValue, drives, batText);
    }

    /** `_refresh_plots`: read each history oldest first and compute the frame;
        nothing is modified. */
    method RefreshPlots() returns (f: ChartFrame)
      requires Valid()
      ensures f == Frame(cpuHistory.Contents(), memHistory.Contents(), netHistory.Contents())
      ensures forall i :: 0 <= i < |f.x| ==> f.x[i] == i - 59
      ensures |f.x| == HISTORY_LEN && f.xMin == -59 && f.xMax == 0
    {
      var yCpu := cpuHistory.Snapshot();
      var yMem := memHistory.Snapshot();
      var yNet := netHistory.Snapshot();
      f := Frame(yCpu, yMem, yNet);
    }
  }

  /** A run of at least HISTORY_LEN cycles at a constant CPU reading c leaves
      every CPU entry at c, while the CPU y-range stays [0, 100]. */
  lemma ConstantCpuRun(pushed: seq<real>, mem: seq<real>, net: seq<real>, c: real)
    requires |pushed| >= HISTORY_LEN && |mem| == HISTORY_LEN && |net| == HISTORY_LEN
    requires forall i :: 0 <= i < |pushed| ==> pushed[i] == c
    ensures forall i :: 0 <= i < HISTORY_LEN ==> Frame(Window(pushed), mem, net).yCpu[i] == c
    ensures Frame(Window(pushed), mem, net).cpuYLim == (0.0, 100.0)
  {
    WindowOfConstant(pushed, c);
  }
}
