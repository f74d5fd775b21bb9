# System Pulse: a Dafny model of the sampling and presentation bookkeeping

System Pulse is a Tk desktop widget. Once a second it samples CPU, memory,
disk, network and battery statistics. It shows them as five progress bars and
plots three 60-second rolling charts. This project models the bookkeeping
inside the widget's `SystemPulse` class. The sensors, the widget toolkit, the
plotting library and the thread are abstracted away.

- `history.dfy`, module `MetricHistory`: the three bounded histories.
  - `History` is a ring over an array of `HISTORY_LEN = 60` slots.
  - It starts as 60 zeros. `Append` overwrites the oldest slot. `Snapshot`
    reads the ring back oldest first.
  - Its invariant ties the ring to `Window(Pushed)`: the last 60 entries of
    60 zeros followed by every appended value.
  - `ReplayIsWindow` proves that `Window` agrees with replaying
    `deque.append` under `maxlen`.
- `sampling.dfy`, module `Sampling`: one collector cycle as values.
  - Partition enumeration, per-partition usage reads, network counters and
    the battery reading are datatypes, including their failure cases.
  - `Readable`, `DiskValue`, `DriveCount`, `NetRate`, `BatteryValue`,
    `BatteryText` and `SampleOf` give the cycle's results.
  - `AverageDisk` is the partition loop, proved against `DiskValue` and
    `DriveCount`.
- `bars.dfy`, module `Bars`: the presenter.
  - `Presenter` keeps a map from bar name to value, the single colour of the
    shared progress-bar style, and the info line.
  - `UpdateBar` is `_update_bar`; `UpdateUi` is `_update_ui`.
- `charts.dfy`, module `Charts`: the chart refresh as a value.
  - `Frame` gives the x axis −59..0, the three series, and the limits:
    fixed `[0, 100]` for CPU and memory, and `max(10, 1.4·max)` for the
    network.
- `pulse.dfy`, module `Pulse`: the `SystemPulse` object.
  - It holds three distinct histories, the previous network snapshot and the
    presenter.
  - `CollectStep` is one iteration of `_collect_loop`. `RefreshPlots` is
    `_refresh_plots`. `RefreshPlots` has no `modifies` clause, so it changes
    no history, and its result is a function of the three histories'
    contents. Two refreshes with no append in between therefore give equal
    frames.

Three behaviours of the code are worth knowing:

- **Network rate.** The code does not clamp negative counter deltas
  (system_pulse.py:138-141), so a counter reset gives a negative rate.
  `NetRate` is negative exactly when the total went down.
- **Bar colour.** All five bars share one ttk style, so a colour set for one
  bar is the colour of every bar. `UpdateUi` proves that after each update
  the shared colour is aqua whatever the disk value, because the Battery bar
  is updated last and resets the style.
- **Battery.** When there is no battery reading, the code reports the value 0
  and the text "N/A", not an absent value.

## Model

| member | source | states |
|---|---|---|
| MetricHistory.Window | system_pulse.py:100-102 | a history always holds exactly HISTORY_LEN = 60 entries |
| MetricHistory.DequeAppend | system_pulse.py:100-102 | `append` on a deque with maxlen 60 grows a non-full deque by one and keeps a full one at its length, with the new value last |
| MetricHistory.Replay | system_pulse.py:157-159 | repeated `deque.append` keeps a full history at 60 entries, never shrinks it, and leaves the last appended value newest |
| MetricHistory.ReplayAppend | system_pulse.py:157-159 | replaying one more append is one more `DequeAppend` on the replayed deque |
| MetricHistory.WindowAppend | system_pulse.py:157-159 | each append drops the oldest entry and adds the new value as the newest |
| MetricHistory.ReplayIsWindow | system_pulse.py:157-159 | appending v1..vk to the 60 initial zeros under maxlen eviction leaves the last 60 elements of zeros ++ [v1..vk], oldest first |
| MetricHistory.WindowRecent | system_pulse.py:157-159 | after 60 appends or more, a history holds exactly the 60 most recent values in append order |
| MetricHistory.WindowEarly | system_pulse.py:100-102 | before 60 appends, a history holds 60 − k initial zeros followed by the k appended values |
| MetricHistory.WindowOfConstant | system_pulse.py:157 | after at least 60 appends of one constant, every entry equals it |
| MetricHistory.History.constructor | system_pulse.py:100-102 | a new history holds 60 zeros and nothing has been appended |
| MetricHistory.History.Append | system_pulse.py:157-159 | an append keeps the ring invariant, records the value and turns the contents into old contents minus the oldest, plus the value |
| MetricHistory.History.Snapshot | system_pulse.py:218-220 | reading back yields the contents oldest first, equal to the window of all appended values |
| Sampling.Readable | system_pulse.py:125-131 | the percents collected from the partitions that could be read, in order; never more than the partitions enumerated |
| Sampling.DiskValue | system_pulse.py:123-135 | 0 on enumeration failure or when nothing is readable; otherwise the mean of the readable percents rounded to one decimal, so within 0.05 of that mean |
| Sampling.DriveCount | system_pulse.py:124-135 | `len(partitions)`: 0 when enumeration fails, otherwise at least the number of readable partitions |
| Sampling.BatteryValue | system_pulse.py:144-154 | the battery percent when a reading is present, 0 when it is absent or raises |
| Sampling.BatteryText | system_pulse.py:144-154 | "N/A" when absent or failing; otherwise the percent text followed by "% ", then "(Charging)" exactly when plugged in |
| Sampling.SampleOf | system_pulse.py:162 | the values handed to `_update_ui`: cpu and mem as read, the rate times 1024 is the byte delta, and a cycle with no drives has disk value 0 |
| Sampling.AverageDisk | system_pulse.py:123-135 | the partition loop computes the disk value and the drive count that `DiskValue` and `DriveCount` define, including the enumeration-failure case |
| Sampling.ReadableConcat | system_pulse.py:126-131 | collecting readable percents over two runs of partitions is collecting over each in turn |
| Sampling.ReadableMembers | system_pulse.py:126-131 | a percent is collected exactly when some partition's usage read returned it |
| Sampling.ReadableLength | system_pulse.py:124-131 | at most every partition is readable, and all of them exactly when no usage read failed |
| Sampling.SumBounds | system_pulse.py:132 | the sum of n percents, each within [lo, hi], lies within [n·lo, n·hi] |
| Sampling.MeanBounds | system_pulse.py:132 | the mean of the readable percents lies between any lower and upper bound of them |
| Sampling.Round1 | system_pulse.py:132 | the rounded value is a whole number of tenths and lies within 0.05 of the input |
| Sampling.Round1Monotone | system_pulse.py:132 | rounding to one decimal preserves order |
| Sampling.DiskBetween | system_pulse.py:123-135 | the disk value lies between the rounded smallest and largest readable percent, within 0.05 of that range |
| Sampling.DiskIsPercent | system_pulse.py:123-135 | readable percents in [0, 100] give a disk value in [0, 100] |
| Sampling.DiskDefault | system_pulse.py:132-135 | the disk value is 0 when enumeration fails or no partition is readable |
| Sampling.DiskSkipsFailed | system_pulse.py:127-131 | an unreadable partition leaves the disk value unchanged but adds one to the drive count |
| Sampling.DriveCountCountsAll | system_pulse.py:124-135 | the drive count is 0 on enumeration failure; otherwise it counts every enumerated partition, so it is at least the readable count and equals it only when no read failed |
| Sampling.DiskExample | system_pulse.py:123-132 | partitions at 20 % and 80 % plus one unreadable partition give disk 50.0 over 3 drives |
| Sampling.NetRate | system_pulse.py:138-141 | the rate times 1024 is the change in sent+received bytes, and it is negative exactly when the counter total decreased (no clamping) |
| Sampling.NetRateExample | system_pulse.py:138-141 | a total going from 1 000 000 to 1 025 600 bytes gives 25.0 KB |
| Sampling.NoParenInBatteryText | system_pulse.py:147 | the text of an unplugged battery contains no parenthesis |
| Sampling.BatteryReport | system_pulse.py:144-154 | a present battery reports its percent, and its text contains "(Charging)" exactly when it is plugged in; an absent or failing battery reports 0 and "N/A" |
| Bars.TierColour | system_pulse.py:194-200 | aqua exactly below 50, yellow exactly in [50, 75), red exactly from 75 |
| Bars.TierBoundaries | system_pulse.py:194-200 | 49 is aqua, 50 and 74.9 are yellow, 75 is red |
| Bars.NetworkBarValue | system_pulse.py:173 | the network bar value is net/10, capped at 100, and is exactly net/10 up to 1000 KB |
| Bars.NetworkBarExamples | system_pulse.py:173 | 500 KB gives 50; 1000 and 2500 KB give 100 |
| Bars.Presenter.constructor | system_pulse.py:58-67 | the five named bars start at 0, with the shared style aqua and the info line blank |
| Bars.Presenter.UpdateBar | system_pulse.py:189-203 | an unknown name changes nothing; a known bar gets the value exactly; the shared colour becomes the tier colour with colour_dynamic and aqua without it |
| Bars.Presenter.UpdateUi | system_pulse.py:167-184 | the five bars get cpu, mem, disk, min(net/10, 100) and battery; the shared colour ends up aqua whatever the disk value; the info line carries the drive count and battery text |
| Charts.Range | system_pulse.py:216 | `range(lo, hi)` has hi − lo consecutive entries starting at lo |
| Charts.MaxOf | system_pulse.py:234 | the maximum is an element of the list and no element exceeds it |
| Charts.NetYMax | system_pulse.py:234-236 | the network y-maximum is at least 10 and at least 1.4 times every rate, and is 10, or 1.4 times some rate (14 for an empty list) |
| Charts.Frame | system_pulse.py:215-236 | the x axis is −(n−1)..0 with those ends as x limits; the series are the histories unchanged; CPU and memory y-limits are [0, 100]; the network's is [0, NetYMax] |
| Pulse.SystemPulse.constructor | system_pulse.py:100-102 | three distinct fresh histories of 60 zeros, the initial network snapshot and a fresh presenter |
| Pulse.SystemPulse.CollectStep | system_pulse.py:118-162 | one cycle returns the disk, drive count, rate, battery value and text defined in `Sampling`; it replaces the snapshot with the current counters and appends cpu, mem and rate to their own history only |
| Pulse.SystemPulse.RefreshPlots | system_pulse.py:215-236 | the refresh reads the three histories oldest first, modifies nothing, and uses the x axis −59..0 |
| Pulse.ConstantCpuRun | system_pulse.py:216-229 | after 60 or more cycles at a constant CPU value, every plotted CPU entry equals it and the CPU y-range stays [0, 100] |

## Left out

- Widget construction, layout and fonts (system_pulse.py:25-97) are UI toolkit calls. Only the bar names, bar values and the shared style colour are modelled.
- Matplotlib rendering is foreign library code: `set_data`, `relim`, `autoscale_view`, and `draw_idle` with its fallback to `draw` (system_pulse.py:223-225, 239-248). `Frame` gives the data and limits handed to it. The `autoscale_view` call does not override limits set with `set_ylim`.
- Sensor calls are inputs of `CollectStep`: `cpu_percent(interval=1)`, `virtual_memory`, `disk_partitions`, `disk_usage`, `net_io_counters` and `sensors_battery`. The exceptions of `disk_partitions`, `disk_usage` and `sensors_battery`, which the source catches, are the failure constructors of the reading datatypes. Nothing constrains the CPU and memory readings.
- Pulse.SystemPulse.CollectStep: assumes that the CPU, memory and network counter reads succeed. In the source these calls sit outside any `try` (system_pulse.py:117, 119-120, 138), so an exception there ends the collector thread and stops collection; the model has no failure case for them.
- The collector thread, the `collecting` flag, `root.after(0, …)` marshalling and the `root.after(1000, …)` rescheduling are not modelled (system_pulse.py:106-110, 118, 162, 208-210). These are concurrency and event-loop plumbing. `CollectStep` models one iteration, and `prevNet`, a local of the loop, is a field carried between calls.
- The uptime and platform parts of the info line are not modelled (system_pulse.py:177-184). They come from the clock, `boot_time` and `platform`. The info line keeps only the drive count and the battery text.
- Sampling.Round1: Python's `round(x, 1)` rounds binary floats half to even. The model rounds exact reals half up. All percents and rates are exact reals, not IEEE doubles.
- Sampling.BatteryReport: Python's `str` of the battery percent is not modelled. The reading carries that text, assumed to be made of number characters.
- `power_plugged` can be `None` in psutil. `None` behaves like `False` in the source, and the model keeps only a boolean.
- The unused `time_idx` deque (system_pulse.py:103) is never read.
