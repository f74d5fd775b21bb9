/** The bounded metric histories: three deques of capacity HISTORY_LEN that
    start out holding HISTORY_LEN zeros and evict their oldest entry on every
    append. */
module MetricHistory {

  /** Seconds of history kept per metric. */
  const HISTORY_LEN: nat := 60

  function Zeros(n: nat): (z: seq<real>)
    ensures |z| == n && forall i :: 0 <= i < n ==> z[i] == 0.0
  {
    seq(n, _ => 0.0)
  }

  /** What a history holds, oldest first, once the values of `pushed` have been
      appended to it in order: the last HISTORY_LEN entries of the initial
      zeros followed by `pushed`. */
  function Window(pushed: seq<real>): (w: seq<real>)
    ensures |w| == HISTORY_LEN
  {
    (Zeros(HISTORY_LEN) + pushed)[|pushed|..]
  }

  /** `append` on a deque whose maxlen is HISTORY_LEN: a full deque drops its
      leftmost (oldest) entry before the new one goes on the right. */
  function DequeAppend(d: seq<real>, v: real): (d': seq<real>)
    ensures |d| < HISTORY_LEN ==> |d'| == |d| + 1
    ensures |d| >= HISTORY_LEN ==> |d'| == |d|
    ensures d'[|d'| - 1] == v
  {
    if |d| >= HISTORY_LEN then d[1..] + [v] else d + [v]
  }

  /** The deque after appending every value of `vs`, one at a time. */
  function Replay(d: seq<real>, vs: seq<real>): (r: seq<real>)
    ensures |d| == HISTORY_LEN ==> |r| == HISTORY_LEN
    ensures |r| >= |d|
    ensures vs != [] ==> |r| > 0 && r[|r| - 1] == vs[|vs| - 1]
    decreases |vs|
  {
    if vs == [] then d else Replay(DequeAppend(d, vs[0]), vs[1..])
  }

  lemma {:induction false} ReplayAppend(d: seq<real>, vs: seq<real>, v: real)
    ensures Replay(d, vs + [v]) == DequeAppend(Replay(d, vs), v)
    decreases |vs|
  {
    if vs == [] {
      assert [v][1..] == [];
    } else {
      assert (vs + [v])[0] == vs[0];
      assert (vs + [v])[1..] == vs[1..] + [v];
      ReplayAppend(DequeAppend(d, vs[0]), vs[1..], v);
    }
  }

  /** One append moves the window along by one: the oldest entry goes and the
      new value becomes the newest. */
  lemma WindowAppend(pushed: seq<real>, v: real)
    ensures Window(pushed + [v]) == Window(pushed)[1..] + [v]
  {
    var z := Zeros(HISTORY_LEN) + pushed;
    assert Zeros(HISTORY_LEN) + (pushed + [v]) == z + [v];
    assert (z + [v])[|pushed| + 1..] == z[|pushed|..][1..] + [v];
  }

  /** The deque semantics and the last-HISTORY_LEN characterisation agree:
      replaying appends onto the initial zeros gives Window. */
  lemma {:induction false} ReplayIsWindow(vs: seq<real>)
    ensures Replay(Zeros(HISTORY_LEN), vs) == Window(vs)
    decreases |vs|
  {
    if vs == [] {
      assert Zeros(HISTORY_LEN) + [] == Zeros(HISTORY_LEN);
    } else {
      var init, last := vs[..|vs| - 1], vs[|vs| - 1];
      assert vs == init + [last];
      ReplayIsWindow(init);
      ReplayAppend(Zeros(HISTORY_LEN), init, last);
      WindowAppend(init, last);
    }
  }

  /** Once HISTORY_LEN values or more were appended, the history holds exactly
      the most recent HISTORY_LEN of them, in append order. */
  lemma WindowRecent(pushed: seq<real>)
    requires |pushed| >= HISTORY_LEN
    ensures Window(pushed) == pushed[|pushed| - HISTORY_LEN..]
  {
    var z := Zeros(HISTORY_LEN) + pushed;
    assert forall i :: 0 <= i < HISTORY_LEN ==> z[|pushed|..][i] == pushed[|pushed| - HISTORY_LEN + i];
  }

  /** Before HISTORY_LEN appends, the oldest entries are still initial zeros. */
  lemma WindowEarly(pushed: seq<real>)
    requires |pushed| < HISTORY_LEN
    ensures Window(pushed) == Zeros(HISTORY_LEN - |pushed|) + pushed
  {
    assert Zeros(HISTORY_LEN) == Zeros(|pushed|) + Zeros(HISTORY_LEN - |pushed|);
  }

  /** After at least HISTORY_LEN appends of the same value c, every entry is c. */
  lemma {:induction false} WindowOfConstant(pushed: seq<real>, c: real)
    requires |pushed| >= HISTORY_LEN
    requires forall i :: 0 <= i < |pushed| ==> pushed[i] == c
    ensures forall i :: 0 <= i < HISTORY_LEN ==> Window(pushed)[i] == c
  {
    WindowRecent(pushed);
  }

  /** One metric history, a ring over an array of HISTORY_LEN slots. `start` is
      the slot of the oldest entry, which the next append overwrites. */
  class History {
    const data: array<real>
    var start: nat
    /** Every value appended since construction, in order. */
    ghost var Pushed: seq<real>

    /** The entries oldest first, as iterating the deque yields them. */
    function Contents(): (c: seq<real>)
      reads this, data
      requires start <= data.Length
      ensures |c| == data.Length
    {
      data[start..] + data[..start]
    }

    ghost predicate Valid()
      reads this, data
    {
      data.Length == HISTORY_LEN && start < HISTORY_LEN && Contents() == Window(Pushed)
    }

    /** `deque([0]*HISTORY_LEN, maxlen=HISTORY_LEN)` */
    constructor ()
      ensures Valid() && fresh(data)
      ensures Pushed == [] && Contents() == Zeros(HISTORY_LEN)
    {
      data := new real[HISTORY_LEN](_ => 0.0);
      start := 0;
      Pushed := [];
      new;
      assert data[..] == Zeros(HISTORY_LEN);
      assert Zeros(HISTORY_LEN) + [] == Zeros(HISTORY_LEN);
    }

    /** `append(v)`: overwrite the oldest slot and advance the ring. */
    method Append(v: real)
      requires Valid()
      modifies this, data
      ensures Valid()
      ensures Pushed == old(Pushed) + [v]
      ensures Contents() == old(Contents())[1..] + [v]
    {
      ghost var before := Contents();
      assert before[0] == data[start];
      data[start] := v;
      if start + 1 < HISTORY_LEN {
        assert data[start + 1..] + data[..start + 1] == before[1..] + [v] by {
          assert data[..start + 1] == data[..start] + [v];
        }
        start := start + 1;
      } else {
        assert data[0..] + data[..0] == before[1..] + [v] by {
          assert data[0..] == data[..start] + [v];
          assert before == [old(data[start])] + data[..start];
        }
        start := 0;
      }
      Pushed := Pushed + [v];
      WindowAppend(old(Pushed), v);
    }

    /** `list(history)`: read the ring back, oldest first. */
    method Snapshot() returns (s: seq<real>)
      requires Valid()
      ensures s == Contents() && s == Window(Pushed)
    {
      s := [];
      var i := 0;
      while i < HISTORY_LEN
        invariant 0 <= i <= HISTORY_LEN
        invariant s == Contents()[..i]
      {
        var slot := if start + i < HISTORY_LEN then start + i else start + i - HISTORY_LEN;
        assert Contents()[i] == data[slot];
        s := s + [data[slot]];
        i := i + 1;
      }
    }
  }
}
