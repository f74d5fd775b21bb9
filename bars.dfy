/** The progress-bar presenter: five bars that share one ttk style, so every
    colour change made for one bar is the colour of all of them. */
module Bars {
  import opened Sampling

  const CPU_USAGE := "CPU Usage"
  const MEMORY_USAGE := "Memory Usage"
  const DISK_USAGE := "Disk Usage"
  const NETWORK_SPEED := "Network Speed"
  const BATTERY := "Battery"

  /** The names under which the bars are registered. */
  const BAR_NAMES: set<string> := {CPU_USAGE, MEMORY_USAGE, DISK_USAGE, NETWORK_SPEED, BATTERY}

  const AQUA := "#00E0B8"
  const YELLOW := "#FFD700"
  const RED := "#FF3B3B"

  /** The disk tier colour: aqua below 50, yellow from 50 below 75, red from
      75 on (each boundary belongs to the upper tier). */
  function TierColour(v: real): (c: string)
    ensures c == AQUA <==> v < 50.0
    ensures c == YELLOW <==> 50.0 <= v < 75.0
    ensures c == RED <==> 75.0 <= v
  {
    assert AQUA[1] != YELLOW[1] && AQUA[1] != RED[1] && YELLOW[3] != RED[3];
    if v < 50.0 then AQUA else if v < 75.0 then YELLOW else RED
  }

  /** The network bar's heuristic scale, 10 KB per percent capped at 100. */
  function NetworkBarValue(netKbs: real): (r: real)
    ensures r <= 100.0 && r <= netKbs / 10.0
    ensures r == netKbs / 10.0 || r == 100.0
    ensures netKbs <= 1000.0 ==> r == netKbs / 10.0
  {
    if netKbs / 10.0 <= 100.0 then netKbs / 10.0 else 100.0
  }

  lemma NetworkBarExamples()
    ensures NetworkBarValue(1000.0) == 100.0 && NetworkBarValue(500.0) == 50.0
    ensures NetworkBarValue(2500.0) == 100.0
  {
  }

  lemma TierBoundaries()
    ensures TierColour(49.0) == AQUA && TierColour(50.0) == YELLOW
    ensures TierColour(74.9) == YELLOW && TierColour(75.0) == RED
  {
  }

  /** The info label: empty until the first update, then the drive count and
      the battery text (the platform and uptime parts are not modelled). */
  datatype InfoLine = Blank | InfoLine(drives: nat, battery: string)

  class Presenter {
    /** Each registered bar's value. */
    var bars: map<string, real>
    /** The one colour of the shared "TProgressbar" style. */
    var styleColour: string
    var info: InfoLine

    ghost predicate Valid()
      reads this
    {
      bars.Keys == BAR_NAMES
    }

    constructor ()
      ensures Valid()
      ensures forall n :: n in BAR_NAMES ==> bars[n] == 0.0
      ensures styleColour == AQUA && info == Blank
    {
      bars := map n | n in BAR_NAMES :: 0.0;
      styleColour := AQUA;
      info := Blank;
    }

    /** `_update_bar`: an unknown name changes nothing; a known one gets the
        value, and the shared style gets the tier colour or is reset to aqua. */
    method UpdateBar(name: string, value: real, colourDynamic: bool)
      modifies this
      ensures name !in old(bars) ==> bars == old(bars) && styleColour == old(styleColour)
      ensures name in old(bars) ==> bars == old(bars)[name := value]
      ensures name in old(bars) ==> styleColour == if colourDynamic then TierColour(value) else AQUA
      ensures bars.Keys == old(bars.Keys) && info == old(info)
    {
      if name !in bars {
        return;
      }
      bars := bars[name := value];
      if colourDynamic {
        styleColour := TierColour(value);
      } else {
        styleColour := AQUA;
      }
    }

    /** `_update_ui`: set the five bars in order, the disk one with the tier
        colour rule, then the info line. Battery goes last and resets the
        shared style, so the disk tier colour never remains. */
    method UpdateUi(s: Sample)
      requires Valid()
      modifies this
      ensures Valid()
      ensures bars == old(bars)[CPU_USAGE := s.cpu][MEMORY_USAGE := s.mem][DISK_USAGE := s.disk]
                               [NETWORK_SPEED := NetworkBarValue(s.netKbs)][BATTERY := s.batValue]
      ensures styleColour == AQUA
      ensures info == InfoLine(s.partitionsCount, s.batText)
    {
      UpdateBar(CPU_USAGE, s.cpu, false);
      UpdateBar(MEMORY_USAGE, s.mem, false);
      UpdateBar(DISK_USAGE, s.disk, true);
      UpdateBar(NETWORK_SPEED, NetworkBarValue(s.netKbs), false);
      UpdateBar(BATTERY, s.batValue, false);
      info := InfoLine(s.partitionsCount, s.batText);
    }
  }
}
