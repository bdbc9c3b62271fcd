/** The vote over several frames of recognised text: a code is believed when enough frames
    within a window agree on it. */
module Consensus {
  import opened Options

  type Frame = seq<string>

  predicate DuplicateFree(f: Frame) {
    forall i, j :: 0 <= i < j < |f| ==> f[i] != f[j]
  }

  // ---- Counting

  /** How often a code occurs in a frame. */
  function Times(f: Frame, c: string): nat {
    if f == [] then 0 else Times(f[..|f| - 1], c) + if f[|f| - 1] == c then 1 else 0
  }

  /** How often it occurs in all frames. */
  function Occurrences(frames: seq<Frame>, c: string): nat {
    if frames == [] then 0 else Occurrences(frames[..|frames| - 1], c) + Times(frames[|frames| - 1], c)
  }

  /** In how many frames it occurs. */
  function FramesWith(frames: seq<Frame>, c: string): nat {
    if frames == [] then 0 else FramesWith(frames[..|frames| - 1], c) + if c in frames[|frames| - 1] then 1 else 0
  }

  lemma {:induction false} TimesPositive(f: Frame, c: string)
    ensures Times(f, c) > 0 <==> c in f
    ensures DuplicateFree(f) ==> Times(f, c) <= 1
    decreases |f|
  {
    if f != [] {
      var g := f[..|f| - 1];
      TimesPositive(g, c);
      assert f == g + [f[|f| - 1]];
    }
  }

  lemma {:induction false} OccurrencesAreFrames(frames: seq<Frame>, c: string)
    requires forall k :: 0 <= k < |frames| ==> DuplicateFree(frames[k])
    ensures Occurrences(frames, c) == FramesWith(frames, c)
    decreases |frames|
  {
    if frames != [] {
      OccurrencesAreFrames(frames[..|frames| - 1], c);
      TimesPositive(frames[|frames| - 1], c);
    }
  }

  // ---- The leader

  /** The codes in the order of their first occurrence: the order in which the program's map
      keeps its entries. */
  function Entries(frames: seq<Frame>): seq<string> {
    if frames == [] then [] else AddAll(Entries(frames[..|frames| - 1]), frames[|frames| - 1])
  }

  function AddAll(order: seq<string>, f: Frame): seq<string> {
    if f == [] then order else Add(AddAll(order, f[..|f| - 1]), f[|f| - 1])
  }

  function Add(order: seq<string>, c: string): seq<string> {
    if c in order then order else order + [c]
  }

  /** The first of the codes counted most often. */
  function Leader(order: seq<string>, count: string -> nat): (Option<string>, nat) {
    if order == [] then (None, 0) else
    var (r, n) := Leader(order[..|order| - 1], count);
    var c := order[|order| - 1];
    if count(c) > n then (Some(c), count(c)) else (r, n)
  }

  /** Nobody is ahead of the leader, and those before it are behind it. */
  lemma {:induction false} LeaderLeads(order: seq<string>, count: string -> nat)
    ensures var (r, n) := Leader(order, count);
            && (forall i :: 0 <= i < |order| ==> count(order[i]) <= n)
            && (r == None <==> n == 0)
            && (r != None ==> exists k :: 0 <= k < |order| && order[k] == r.value && count(r.value) == n
                                          && forall i :: 0 <= i < k ==> count(order[i]) < n)
    decreases |order|
  {
    if order != [] {
      var m := |order| - 1;
      LeaderLeads(order[..m], count);
      var (r, n) := Leader(order[..m], count);
      if count(order[m]) > n {
        assert forall i :: 0 <= i < m ==> order[..m][i] == order[i];
      } else if r != None {
        var k :| 0 <= k < m && order[..m][k] == r.value && count(r.value) == n
                 && forall i :: 0 <= i < k ==> count(order[..m][i]) < n;
        assert order[k] == r.value && forall i :: 0 <= i < k ==> order[i] == order[..m][i];
      }
    }
  }

  // ---- One frame

  /** The frames since the last reset, before and after a frame, and the code returned. */
  datatype Outcome = Outcome(code: Option<string>, since: seq<Frame>)

  function Push(since: seq<Frame>, f: Frame, threshold: nat, window: nat): Outcome {
    var all := since + [f];
    var (r, n) := Leader(Entries(all), c => Occurrences(all, c));
    if r != None && n >= threshold then Outcome(r, [])
    else if |all| >= window then Outcome(None, [])
    else Outcome(None, all)
  }

  lemma AddKeeps(order: seq<string>, c: string, d: string)
    ensures d in Add(order, c) <==> d in order || d == c
  {
  }

  lemma {:induction false} AddAllKeeps(order: seq<string>, f: Frame, d: string)
    ensures d in AddAll(order, f) <==> d in order || d in f
    decreases |f|
  {
    if f != [] {
      var n := |f| - 1;
      AddAllKeeps(order, f[..n], d);
      AddKeeps(AddAll(order, f[..n]), f[n], d);
      assert f == f[..n] + [f[n]];
    }
  }

  /** The entries are the codes that occur. */
  lemma {:induction false} EntriesOccur(frames: seq<Frame>, c: string)
    ensures c in Entries(frames) <==> Occurrences(frames, c) > 0
    decreases |frames|
  {
    if frames != [] {
      var n := |frames| - 1;
      EntriesOccur(frames[..n], c);
      AddAllKeeps(Entries(frames[..n]), frames[n], c);
      TimesPositive(frames[n], c);
    }
  }

  // ---- What every frame keeps

  /** The number of frames that must agree; with a threshold of zero one is still needed. */
  function Needed(threshold: nat): nat {
    if threshold == 0 then 1 else threshold
  }

  /** No code has reached the threshold, and the window is not full. */
  ghost predicate Quiet(since: seq<Frame>, threshold: nat, window: nat) {
    && (since == [] || |since| < window)
    && forall c :: Occurrences(since, c) < Needed(threshold)
  }

  lemma NothingYet(threshold: nat, window: nat)
    ensures Quiet([], threshold, window)
  {
  }

  lemma OccurrencesStep(since: seq<Frame>, f: Frame, c: string)
    ensures Occurrences(since + [f], c) == Occurrences(since, c) + Times(f, c)
  {
    assert (since + [f])[..|since|] == since;
  }

  /** A code is returned just when one has reached the threshold with this frame, and it has
      reached it exactly; otherwise all is quiet again. */
  lemma PushDecides(since: seq<Frame>, f: Frame, threshold: nat, window: nat)
    requires Quiet(since, threshold, window) && DuplicateFree(f)
    ensures var o := Push(since, f, threshold, window);
            && Quiet(o.since, threshold, window)
            && (o.code != None <==> exists c :: Occurrences(since + [f], c) >= Needed(threshold))
            && (o.code != None ==> Occurrences(since + [f], o.code.value) == Needed(threshold) && o.since == [])
            && (o.since == [] || o.since == since + [f])
  {
    hide Entries, Leader, Occurrences, Times;
    var all := since + [f];
    var count := c => Occurrences(all, c);
    LeaderLeads(Entries(all), count);
    var (r, n) := Leader(Entries(all), count);
    forall c ensures Occurrences(all, c) <= n && Occurrences(all, c) <= Needed(threshold) {
      EntriesOccur(all, c);
      OccurrencesStep(since, f, c);
      TimesPositive(f, c);
      if c in Entries(all) {
        var i :| 0 <= i < |Entries(all)| && Entries(all)[i] == c;
        assert count(Entries(all)[i]) <= n;
      }
    }
    NothingYet(threshold, window);
    if r != None {
      assert Occurrences(all, r.value) == n;
    }
  }

  lemma PushKeeps(since: seq<Frame>, f: Frame, threshold: nat, window: nat)
    requires Quiet(since, threshold, window) && DuplicateFree(f)
    ensures var o := Push(since, f, threshold, window);
            Quiet(o.since, threshold, window) && (o.since == [] || o.since == since + [f])
    ensures Push(since, f, threshold, window).code != None ==> Push(since, f, threshold, window).since == []
  {
    PushDecides(since, f, threshold, window);
  }

  // ---- Whole runs

  function Run(frames: seq<Frame>, threshold: nat, window: nat): Outcome {
    if frames == [] then Outcome(None, []) else
    var n := |frames| - 1;
    Push(Run(frames[..n], threshold, window).since, frames[n], threshold, window)
  }

  lemma RunStep(frames: seq<Frame>, f: Frame, threshold: nat, window: nat)
    ensures Run(frames + [f], threshold, window) == Push(Run(frames, threshold, window).since, f, threshold, window)
  {
    assert (frames + [f])[..|frames|] == frames;
  }

  ghost predicate AllDuplicateFree(frames: seq<Frame>) {
    forall k :: 0 <= k < |frames| ==> DuplicateFree(frames[k])
  }

  /** s are the last of the frames, and quiet. */
  ghost predicate LastAndQuiet(frames: seq<Frame>, s: seq<Frame>, threshold: nat, window: nat) {
    Quiet(s, threshold, window) && |s| <= |frames| && s == frames[|frames| - |s|..]
  }

  lemma StartIsQuiet(threshold: nat, window: nat)
    ensures LastAndQuiet([], Run([], threshold, window).since, threshold, window)
  {
    NothingYet(threshold, window);
  }

  lemma CountsOneMore(before: seq<Frame>, f: Frame, threshold: nat, window: nat)
    requires DuplicateFree(f) && LastAndQuiet(before, Run(before, threshold, window).since, threshold, window)
    ensures LastAndQuiet(before + [f], Run(before + [f], threshold, window).since, threshold, window)
  {
    hide Quiet, Push, Run, DuplicateFree;
    var s := Run(before, threshold, window).since;
    RunStep(before, f, threshold, window);
    PushKeeps(s, f, threshold, window);
    LastOnes(before, f, |s|);
  }

  /** The frames counted are the last ones of the run. */
  lemma {:induction false} CountsTheLast(frames: seq<Frame>, threshold: nat, window: nat)
    requires AllDuplicateFree(frames)
    ensures LastAndQuiet(frames, Run(frames, threshold, window).since, threshold, window)
    decreases |frames|
  {
    hide LastAndQuiet, DuplicateFree, Run;
    if frames == [] {
      StartIsQuiet(threshold, window);
    } else {
      var n := |frames| - 1;
      CountsTheLast(frames[..n], threshold, window);
      CountsOneMore(frames[..n], frames[n], threshold, window);
      assert frames == frames[..n] + [frames[n]];
    }
  }

  lemma LastOnes(before: seq<Frame>, f: Frame, m: nat)
    requires m <= |before|
    ensures before[|before| - m..] + [f] == (before + [f])[|before| - m..]
    ensures (before + [f])[|before| + 1..] == []
  {
  }

  /** Nothing was returned among the frames counted. */
  lemma {:induction false} SilentSince(frames: seq<Frame>, threshold: nat, window: nat, k: nat)
    requires AllDuplicateFree(frames) && k <= |frames| && |Run(frames, threshold, window).since| > |frames| - k
    ensures Run(frames[..k], threshold, window).code == None
    decreases |frames|
  {
    hide Quiet, Push, Run, DuplicateFree;
    var n := |frames| - 1;
    CountsTheLast(frames, threshold, window);
    CountsTheLast(frames[..n], threshold, window);
    assert frames == frames[..n] + [frames[n]];
    RunStep(frames[..n], frames[n], threshold, window);
    PushKeeps(Run(frames[..n], threshold, window).since, frames[n], threshold, window);
    if k == |frames| {
      assert frames[..k] == frames;
    } else {
      assert frames[..n][..k] == frames[..k];
      SilentSince(frames[..n], threshold, window, k);
    }
  }

  /** No code has occurred in as many of the frames as are needed. */
  ghost predicate NobodyAgreed(frames: seq<Frame>, threshold: nat) {
    forall d :: FramesWith(frames, d) < Needed(threshold)
  }

  /** In every run of duplicate-free frames: a code returned with the last frame f occurred in
      exactly as many frames as are needed, counted since the last reset and within the window,
      and up to the frame before no code had occurred so often. */
  lemma ReturnedIsAgreed(frames: seq<Frame>, f: Frame, threshold: nat, window: nat)
    requires AllDuplicateFree(frames) && DuplicateFree(f)
    requires Run(frames + [f], threshold, window).code != None
    ensures var s := Run(frames, threshold, window).since;
            && |s| <= |frames| && s == frames[|frames| - |s|..]
            && (|s| < window || s == [])
            && FramesWith(s + [f], Run(frames + [f], threshold, window).code.value) == Needed(threshold)
            && NobodyAgreed(s, threshold)
  {
    hide Push, Run, Leader, Entries;
    var s := Run(frames, threshold, window).since;
    CountsTheLast(frames, threshold, window);
    RunStep(frames, f, threshold, window);
    PushDecides(s, f, threshold, window);
    OccurrencesAreFrames(s + [f], Run(frames + [f], threshold, window).code.value);
    forall d ensures FramesWith(s, d) < Needed(threshold) {
      OccurrencesAreFrames(s, d);
    }
  }

  /** And no code is kept waiting: with the first frame since a reset in which some code has
      occurred often enough, one is returned. */
  lemma AgreedIsReturned(frames: seq<Frame>, f: Frame, threshold: nat, window: nat)
    requires AllDuplicateFree(frames) && DuplicateFree(f)
    requires !NobodyAgreed(Run(frames, threshold, window).since + [f], threshold)
    ensures Run(frames + [f], threshold, window).code != None
  {
    hide Push, Run, Leader, Entries;
    var s := Run(frames, threshold, window).since;
    var c :| FramesWith(s + [f], c) >= Needed(threshold);
    CountsTheLast(frames, threshold, window);
    RunStep(frames, f, threshold, window);
    PushDecides(s, f, threshold, window);
    OccurrencesAreFrames(s + [f], c);
  }

  // ---- The voter object

  class ConsensusVoter {
    const threshold: nat
    const windowFrames: nat

    /** The program's map with its entries in insertion order. */
    var keys: seq<string>
    var hits: map<string, nat>
    var frames: nat

    /** The frames since the last reset. */
    ghost var since: seq<Frame>

    ghost predicate Valid()
      reads this
    {
      && frames == |since| && keys == Entries(since)
      && (forall c :: c in hits <==> c in keys)
      && (forall c :: c in hits ==> hits[c] == Occurrences(since, c))
    }

    constructor (threshold: nat := 3, windowFrames: nat := 12)
      ensures Valid() && since == [] && this.threshold == threshold && this.windowFrames == windowFrames
    {
      this.threshold := threshold;
      this.windowFrames := windowFrames;
      keys, hits, frames, since := [], map[], 0, [];
    }

    method Reset()
      modifies this
      ensures Valid() && since == []
    {
      keys, hits, frames, since := [], map[], 0, [];
    }

    method PushFrame(codes: Frame) returns (r: Option<string>)
      requires Valid()
      modifies this
      ensures Valid()
      ensures Outcome(r, since) == Push(old(since), codes, threshold, windowFrames)
    {
      hide Occurrences, Times;
      ghost var all := since + [codes];
      Count(codes);
      var n := 0;
      r := None;
      for i := 0 to |keys|
        invariant Valid() && since == all
        invariant (r, n) == Leader(keys[..i], c => Occurrences(all, c))
      {
        assert keys[..i + 1][..i] == keys[..i] && keys[i] in keys;
        if hits[keys[i]] > n {
          r, n := Some(keys[i]), hits[keys[i]];
        }
      }
      assert keys[..|keys|] == keys;
      if r != None && n >= threshold {
        Reset();
        return;
      }
      r := None;
      if frames >= windowFrames {
        Reset();
      }
    }

    /** Counts the codes of one frame more. */
    method Count(codes: Frame)
      requires Valid()
      modifies this
      ensures Valid() && since == old(since) + [codes]
    {
      hide Occurrences, Times, Entries, AddAll;
      frames := frames + 1;
      ghost var s := since;
      TimesNone(Entries(s));
      forall c | c !in hits ensures Occurrences(s, c) == 0 {
        EntriesOccur(s, c);
      }
      for i := 0 to |codes|
        invariant frames == |s| + 1 && since == s && keys == AddAll(Entries(s), codes[..i])
        invariant forall c :: c in hits <==> c in keys
        invariant forall c :: c in hits ==> hits[c] == Occurrences(s, c) + Times(codes[..i], c)
        invariant forall c :: c !in hits ==> Occurrences(s, c) + Times(codes[..i], c) == 0
      {
        var c := codes[i];
        CodeStep(Entries(s), codes, i);
        keys := if c in hits then keys else keys + [c];
        hits := hits[c := (if c in hits then hits[c] else 0) + 1];
      }
      assert codes[..|codes|] == codes;
      since := s + [codes];
      forall c ensures Occurrences(since, c) == Occurrences(s, c) + Times(codes, c) {
        OccurrencesStep(s, codes, c);
      }
      EntriesStep(s, codes);
    }
  }

  lemma TimesNone(order: seq<string>)
    ensures AddAll(order, []) == order && forall c :: Times([], c) == 0
  {
  }

  lemma CodeStep(order: seq<string>, f: Frame, i: nat)
    requires i < |f|
    ensures AddAll(order, f[..i + 1]) == Add(AddAll(order, f[..i]), f[i])
    ensures forall c :: Times(f[..i + 1], c) == Times(f[..i], c) + if f[i] == c then 1 else 0
  {
    assert f[..i + 1][..i] == f[..i];
  }

  lemma EntriesStep(since: seq<Frame>, f: Frame)
    ensures Entries(since + [f]) == AddAll(Entries(since), f)
  {
    assert (since + [f])[..|since|] == since;
  }
}
