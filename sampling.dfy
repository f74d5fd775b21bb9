/** One sampling cycle of the background collector, with every sensor call
    replaced by the reading it returned: the disk average over the readable
    partitions, the drive count, the network rate from two counter snapshots
    and the battery value and text. */
module Sampling {

  /** The usage read of one enumerated partition: its percent, or the
      exception that `disk_usage` raised for it. */
  datatype UsageRead = Usage(percent: real) | UsageFailed

  /** The partition enumeration: the partitions found, or the exception that
      `disk_partitions` raised. */
  datatype PartitionsRead = Partitions(parts: seq<UsageRead>) | EnumerationFailed

  /** Cumulative network byte counters. */
  datatype NetCounters = NetCounters(bytesSent: nat, bytesRecv: nat)

  /** The battery reading: present (with the decimal text Python renders for
      its percent), absent (`None`), or failing with an exception. */
  datatype BatteryRead =
    | Battery(percent: real, percentText: string, powerPlugged: bool)
    | NoBattery
    | BatteryFailed

  /** The values one cycle hands to the presenter. */
  datatype Sample = Sample(cpu: real, mem: real, disk: real, netKbs: real,
                           batValue: real, partitionsCount: nat, batText: string)

  /** The percents of the partitions whose usage could be read, in order. */
  function Readable(ps: seq<UsageRead>): (r: seq<real>)
    ensures |r| <= |ps|
  {
    if ps == [] then []
    else
      var last := ps[|ps| - 1];
      Readable(ps[..|ps| - 1]) + (if last.Usage? then [last.percent] else [])
  }

  function Sum(s: seq<real>): real
  {
    if s == [] then 0.0 else Sum(s[..|s| - 1]) + s[|s| - 1]
  }

  function Mean(s: seq<real>): real
    requires s != []
  {
    Sum(s) / |s| as real
  }

  /** `round(x, 1)`, taken as rounding half up to one decimal. */
  function Round1(x: real): (r: real)
    ensures (r * 10.0).Floor as real == r * 10.0
    ensures x - 0.05 < r <= x + 0.05
  {
    var y := x * 10.0 + 0.5;
    assert y.Floor as real <= y < y.Floor as real + 1.0;
    (y.Floor as real) / 10.0
  }

  /** The disk value of one cycle. */
  function DiskValue(p: PartitionsRead): (r: real)
    ensures (p.EnumerationFailed? || Readable(p.parts) == []) ==> r == 0.0
    ensures p.Partitions? && Readable(p.parts) != [] ==>
      Mean(Readable(p.parts)) - 0.05 < r <= Mean(Readable(p.parts)) + 0.05
  {
    match p
    case EnumerationFailed => 0.0
    case Partitions(ps) =>
      var usage := Readable(ps);
      if usage != [] then Round1(Mean(usage)) else 0.0
  }

  /** The drive count of one cycle, `len(partitions)`. */
  function DriveCount(p: PartitionsRead): (n: nat)
    ensures p.EnumerationFailed? ==> n == 0
    ensures p.Partitions? ==> n >= |Readable(p.parts)|
  {
    match p
    case EnumerationFailed => 0
    case Partitions(ps) => |ps|
  }

  function Total(c: NetCounters): int
  {
    c.bytesSent + c.bytesRecv
  }

  /** KB transferred between two counter snapshots; not clamped. */
  function NetRate(prev: NetCounters, now: NetCounters): (r: real)
    ensures r * 1024.0 == (Total(now) - Total(prev)) as real
    ensures r < 0.0 <==> Total(now) < Total(prev)
  {
    (Total(now) - Total(prev)) as real / 1024.0
  }

  function BatteryValue(b: BatteryRead): (v: real)
    ensures b.Battery? ==> v == b.percent
    ensures !b.Battery? ==> v == 0.0
  {
    match b
    case Battery(pc, _, _) => pc
    case _ => 0.0
  }

  function BatteryText(b: BatteryRead): (text: string)
    ensures !b.Battery? ==> text == "N/A"
    ensures b.Battery? ==> |text| >= |b.percentText| + 2 && text[..|b.percentText| + 2] == b.percentText + "% "
    ensures b.Battery? ==> (b.powerPlugged <==> |text| == |b.percentText| + 12)
    ensures b.Battery? && b.powerPlugged ==> OccursAt("(Charging)", text, |b.percentText| + 2)
  {
    match b
    case Battery(_, t, plugged) => t + "% " + (if plugged then "(Charging)" else "")
    case _ => "N/A"
  }

  /** The characters that Python's rendering of a number can contain. */
  const NUMBER_CHARS: set<char> := {'0', '1', '2', '3', '4', '5', '6', '7', '8', '9', '.', '-', '+', 'e', 'i', 'n', 'f', 'a'}

  predicate NumberText(t: string)
  {
    forall i :: 0 <= i < |t| ==> t[i] in NUMBER_CHARS
  }

  predicate OccursAt(pat: string, s: string, i: int)
  {
    0 <= i && i + |pat| <= |s| && s[i..i + |pat|] == pat
  }

  predicate Contains(s: string, pat: string)
  {
    exists i :: 0 <= i <= |s| && OccursAt(pat, s, i)
  }

  /** The loop over the enumerated partitions: collect the readable percents,
      skip the failed reads, then average and count. */
  method AverageDisk(p: PartitionsRead) returns (disk: real, drives: nat)
    ensures disk == DiskValue(p) && drives == DriveCount(p)
  {
    match p
    case EnumerationFailed =>
      disk, drives := 0.0, 0;
    case Partitions(ps) =>
      var usage: seq<real> := [];
      for i := 0 to |ps|
        invariant usage == Readable(ps[..i])
      {
        assert ps[..i + 1][..i] == ps[..i];
        match ps[i]
        case Usage(pc) =>
          usage := usage + [pc];
        case UsageFailed =>
      }
      assert ps[..|ps|] == ps;
      disk := if usage != [] then Round1(Sum(usage) / |usage| as real) else 0.0;
      drives := |ps|;
  }

  /** The whole cycle as a value: what `_collect_loop` passes to `_update_ui`. */
  function SampleOf(cpu: real, mem: real, p: PartitionsRead, prev: NetCounters,
                    now: NetCounters, b: BatteryRead): (s: Sample)
    ensures s.cpu == cpu && s.mem == mem
    ensures s.netKbs * 1024.0 == (Total(now) - Total(prev)) as real
    ensures s.partitionsCount == 0 ==> s.disk == 0.0
    ensures s.partitionsCount >= |if p.Partitions? then Readable(p.parts) else []|
  {
    Sample(cpu, mem, DiskValue(p), NetRate(prev, now), BatteryValue(b), DriveCount(p), BatteryText(b))
  }

  // ---- readable partitions

  lemma {:induction false} ReadableConcat(ps: seq<UsageRead>, qs: seq<UsageRead>)
    ensures Readable(ps + qs) == Readable(ps) + Readable(qs)
    decreases |qs|
  {
    if qs == [] {
      assert ps + qs == ps;
    } else {
      var init := qs[..|qs| - 1];
      assert (ps + qs)[..|ps + qs| - 1] == ps + init;
      ReadableConcat(ps, init);
    }
  }

  /** A percent is in the readable list exactly when some partition read
      returned it. */
  lemma {:induction false} ReadableMembers(ps: seq<UsageRead>, v: real)
    ensures v in Readable(ps) <==> Usage(v) in ps
    decreases |ps|
  {
    if ps != [] {
      var init := ps[..|ps| - 1];
      assert ps == init + [ps[|ps| - 1]];
      ReadableMembers(init, v);
    }
  }

  /** At most every partition is readable, and all of them exactly when no
      usage read failed. */
  lemma {:induction false} ReadableLength(ps: seq<UsageRead>)
    ensures |Readable(ps)| <= |ps|
    ensures |Readable(ps)| == |ps| <==> forall i :: 0 <= i < |ps| ==> ps[i].Usage?
    decreases |ps|
  {
    if ps != [] {
      var init := ps[..|ps| - 1];
      ReadableLength(init);
      if !ps[|ps| - 1].Usage? {
        assert |Readable(ps)| < |ps|;
      } else {
        assert forall i :: 0 <= i < |init| ==> init[i] == ps[i];
      }
    }
  }

  // ---- the disk value

  lemma {:induction false} SumBounds(s: seq<real>, lo: real, hi: real)
    requires forall i :: 0 <= i < |s| ==> lo <= s[i] <= hi
    ensures |s| as real * lo <= Sum(s) <= |s| as real * hi
    decreases |s|
  {
    if s != [] {
      var init := s[..|s| - 1];
      SumBounds(init, lo, hi);
      assert |s| as real * lo == |init| as real * lo + lo;
      assert |s| as real * hi == |init| as real * hi + hi;
    }
  }

  lemma MeanBounds(s: seq<real>, lo: real, hi: real)
    requires s != []
    requires forall i :: 0 <= i < |s| ==> lo <= s[i] <= hi
    ensures lo <= Mean(s) <= hi
  {
    SumBounds(s, lo, hi);
    assert Mean(s) * |s| as real == Sum(s);
  }

  lemma Round1Monotone(x: real, y: real)
    requires x <= y
    ensures Round1(x) <= Round1(y)
  {
    var fx, fy := x * 10.0 + 0.5, y * 10.0 + 0.5;
    assert fx.Floor <= fy.Floor;
  }

  /** The disk value lies between the smallest and largest readable percent,
      up to rounding to one decimal. */
  lemma DiskBetween(ps: seq<UsageRead>, lo: real, hi: real)
    requires Readable(ps) != []
    requires forall i :: 0 <= i < |ps| && ps[i].Usage? ==> lo <= ps[i].percent <= hi
    ensures Round1(lo) <= DiskValue(Partitions(ps)) <= Round1(hi)
    ensures lo - 0.05 < DiskValue(Partitions(ps)) <= hi + 0.05
  {
    var usage := Readable(ps);
    forall i | 0 <= i < |usage| ensures lo <= usage[i] <= hi {
      ReadableMembers(ps, usage[i]);
      var j :| 0 <= j < |ps| && ps[j] == Usage(usage[i]);
    }
    MeanBounds(usage, lo, hi);
    Round1Monotone(lo, Mean(usage));
    Round1Monotone(Mean(usage), hi);
  }

  /** Readable percents in [0, 100] give a disk value in [0, 100]. */
  lemma DiskIsPercent(p: PartitionsRead)
    requires p.Partitions? ==> forall i :: 0 <= i < |p.parts| && p.parts[i].Usage? ==> 0.0 <= p.parts[i].percent <= 100.0
    ensures 0.0 <= DiskValue(p) <= 100.0
  {
    if p.Partitions? && Readable(p.parts) != [] {
      DiskBetween(p.parts, 0.0, 100.0);
      assert Round1(0.0) == 0.0;
      assert Round1(100.0) == 100.0;
    }
  }

  /** The disk value is 0 when enumeration fails or no partition is readable. */
  lemma DiskDefault(p: PartitionsRead)
    requires p.EnumerationFailed? || forall i :: 0 <= i < |p.parts| ==> !p.parts[i].Usage?
    ensures DiskValue(p) == 0.0
  {
    if p.Partitions? {
      if Readable(p.parts) != [] {
        ReadableMembers(p.parts, Readable(p.parts)[0]);
      }
    }
  }

  /** A partition whose usage read fails does not move the disk value, but it
      is still counted as a drive. */
  lemma DiskSkipsFailed(ps: seq<UsageRead>, qs: seq<UsageRead>)
    ensures DiskValue(Partitions(ps + [UsageFailed] + qs)) == DiskValue(Partitions(ps + qs))
    ensures DriveCount(Partitions(ps + [UsageFailed] + qs)) == DriveCount(Partitions(ps + qs)) + 1
  {
    var withFailed := ps + [UsageFailed] + qs;
    ReadableConcat(ps + [UsageFailed], qs);
    assert Readable(ps + [UsageFailed]) == Readable(ps) by {
      assert (ps + [UsageFailed])[..|ps|] == ps;
    }
    ReadableConcat(ps, qs);
    assert Readable(withFailed) == Readable(ps + qs);
  }

  /** The drive count counts every enumerated partition, readable or not, and
      is 0 when enumeration fails. */
  lemma DriveCountCountsAll(p: PartitionsRead)
    ensures p.EnumerationFailed? ==> DriveCount(p) == 0
    ensures p.Partitions? ==> DriveCount(p) >= |Readable(p.parts)|
    ensures p.Partitions? ==>
      (DriveCount(p) == |Readable(p.parts)| <==> forall i :: 0 <= i < |p.parts| ==> p.parts[i].Usage?)
  {
    if p.Partitions? {
      ReadableLength(p.parts);
    }
  }

  /** Two readable partitions at 20% and 80% and one unreadable one give a
      disk value of 50 over three drives. */
  lemma DiskExample()
    ensures DiskValue(Partitions([Usage(20.0), UsageFailed, Usage(80.0)])) == 50.0
    ensures DriveCount(Partitions([Usage(20.0), UsageFailed, Usage(80.0)])) == 3
  {
    var ps := [Usage(20.0), UsageFailed, Usage(80.0)];
    assert ps[..2][..1][..0] == [];
    assert Readable(ps[..2][..1]) == [20.0];
    assert Readable(ps[..2]) == [20.0];
    assert Readable(ps) == [20.0, 80.0];
    assert [20.0, 80.0][..1][..0] == [];
    assert Sum([20.0, 80.0]) == 100.0;
    assert Round1(50.0) == 50.0;
  }

  // ---- the network rate

  /** 25 600 bytes over one cycle are 25 KB. */
  lemma NetRateExample()
    ensures NetRate(NetCounters(600000, 400000), NetCounters(610000, 415600)) == 25.0
  {
  }

  // ---- the battery

  lemma NoParenInBatteryText(b: BatteryRead)
    requires b.Battery? && NumberText(b.percentText) && !b.powerPlugged
    ensures forall i :: 0 <= i < |BatteryText(b)| ==> BatteryText(b)[i] != '('
  {
    var t := b.percentText;
    assert BatteryText(b) == t + "% ";
    forall i | 0 <= i < |BatteryText(b)| ensures BatteryText(b)[i] != '(' {
      if i < |t| {
        assert BatteryText(b)[i] == t[i] && t[i] in NUMBER_CHARS;
      }
    }
  }

  /** A present battery reports its percent, and its text says "(Charging)"
      exactly when it is plugged in; an absent or failing battery reports 0
      and "N/A". */
  lemma BatteryReport(b: BatteryRead)
    requires b.Battery? ==> NumberText(b.percentText)
    ensures b.Battery? ==> BatteryValue(b) == b.percent
    ensures b.Battery? ==> (Contains(BatteryText(b), "(Charging)") <==> b.powerPlugged)
    ensures !b.Battery? ==> BatteryValue(b) == 0.0 && BatteryText(b) == "N/A"
  {
    if b.Battery? {
      var text := BatteryText(b);
      if b.powerPlugged {
        var k := |b.percentText| + 2;
        assert text[k..k + 10] == "(Charging)";
        assert OccursAt("(Charging)", text, k);
      } else {
        NoParenInBatteryText(b);
        forall i | 0 <= i <= |text| ensures !OccursAt("(Charging)", text, i) {
          if i + 10 <= |text| {
            assert text[i..i + 10][0] == text[i] != '(';
          }
        }
      }
    }
  }
}
