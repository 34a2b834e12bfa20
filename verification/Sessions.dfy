/**
 * Sessions of a time line: the maximal runs of consecutive times no more than a window apart.
 * This is the reference definition that both duplicate-suppression layers are proved against.
 */
module Sessions {
  import opened Sequences

  /** Every time follows the one before it by at most the window. */
  ghost predicate Tight(run: seq<int>, window: int) {
    forall i :: 0 < i < |run| ==> run[i] - run[i - 1] <= window
  }

  /** The runs cut the time line into tight pieces, and only where a gap exceeds the window. */
  ghost predicate IsSessionCut(rs: seq<seq<int>>, times: seq<int>, window: int) {
    && Flatten(rs) == times
    && (forall i :: 0 <= i < |rs| ==> rs[i] != [] && Tight(rs[i], window))
    && (forall i :: 0 < i < |rs| ==> rs[i][0] - Last(rs[i - 1]) > window)
  }

  function Extend(rs: seq<seq<int>>, t: int, window: int): (e: seq<seq<int>>)
    requires forall i :: 0 <= i < |rs| ==> rs[i] != []
    ensures forall i :: 0 <= i < |e| ==> e[i] != []
    ensures e != [] && Last(Last(e)) == t
  {
    if rs != [] && t - Last(Last(rs)) <= window then Front(rs) + [Last(rs) + [t]] else rs + [[t]]
  }

  /** The runs, built one time at a time. */
  function Runs(times: seq<int>, window: int): (rs: seq<seq<int>>)
    ensures forall i :: 0 <= i < |rs| ==> rs[i] != []
    ensures times != [] ==> rs != [] && Last(Last(rs)) == Last(times)
    ensures times == [] ==> rs == []
  {
    if times == [] then []
    else Extend(Runs(Front(times), window), Last(times), window)
  }

  lemma RunsStep(times: seq<int>, t: int, window: int)
    ensures Runs(times + [t], window) == Extend(Runs(times, window), t, window)
    ensures |Last(Runs(times + [t], window))| > 1 <==> times != [] && t - Last(times) <= window
  {
    assert Front(times + [t]) == times;
  }

  lemma TightSnoc(run: seq<int>, t: int, window: int)
    requires run != [] && Tight(run, window) && t - Last(run) <= window
    ensures Tight(run + [t], window)
  {
  }

  lemma LongerCut(rs: seq<seq<int>>, t: int, window: int)
    requires rs != [] && IsSessionCut(rs, Flatten(rs), window) && t - Last(Last(rs)) <= window
    ensures IsSessionCut(Front(rs) + [Last(rs) + [t]], Flatten(rs) + [t], window)
  {
    var e := Front(rs) + [Last(rs) + [t]];
    FrontOfSnoc(Front(rs), Last(rs) + [t]);
    Associate(Flatten(Front(rs)), Last(rs), [t]);
    TightSnoc(rs[|rs| - 1], t, window);
    assert forall i :: 0 <= i < |rs| - 1 ==> e[i] == rs[i];
    assert e[|rs| - 1][0] == rs[|rs| - 1][0];
  }

  lemma NewCut(rs: seq<seq<int>>, t: int, window: int)
    requires IsSessionCut(rs, Flatten(rs), window) && (rs != [] ==> t - Last(Last(rs)) > window)
    ensures IsSessionCut(rs + [[t]], Flatten(rs) + [t], window)
  {
    FrontOfSnoc(rs, [t]);
  }

  lemma ExtendCuts(rs: seq<seq<int>>, times: seq<int>, t: int, window: int)
    requires IsSessionCut(rs, times, window)
    ensures IsSessionCut(Extend(rs, t, window), times + [t], window)
  {
    if rs != [] && t - Last(Last(rs)) <= window {
      LongerCut(rs, t, window);
    } else {
      NewCut(rs, t, window);
    }
  }
 lemma DropSingle(rs: seq<seq<int>>, window: int) returns (shorter: seq<seq<int>>)
    requires rs != [] && |Last(rs)| == 1 && IsSessionCut(rs, Flatten(rs), window)
    ensures IsSessionCut(shorter, Flatten(Front(rs)) + Front(Last(rs)), window)
    ensures rs == Extend(shorter, Last(Last(rs)), window)
  {
    shorter := Front(rs);
    assert Front(Last(rs)) == [] && Flatten(shorter) + [] == Flatten(shorter);
    assert Last(rs) == [Last(Last(rs))] && rs == shorter + [Last(rs)];
    assert shorter != [] ==> rs[|rs| - 1][0] - Last(rs[|rs| - 2]) > window;
  }

  lemma DropFromRun(rs: seq<seq<int>>, window: int) returns (shorter: seq<seq<int>>)
    requires rs != [] && |Last(rs)| > 1 && IsSessionCut(rs, Flatten(rs), window)
    ensures shorter == Front(rs) + [Front(Last(rs))]
    ensures IsSessionCut(shorter, Flatten(Front(rs)) + Front(Last(rs)), window)
    ensures rs == Extend(shorter, Last(Last(rs)), window)
  {
    var run := Last(rs);
    shorter := Front(rs) + [Front(run)];
    assert Front(shorter) == Front(rs);
    assert run[|run| - 1] - run[|run| - 2] <= window;
    assert run == Front(run) + [Last(run)];
  }

  /** Undoing the last extension of a session cut. */
  lemma DropLast(rs: seq<seq<int>>, times: seq<int>, window: int) returns (shorter: seq<seq<int>>)
    requires times != [] && IsSessionCut(rs, times, window)
    ensures IsSessionCut(shorter, Front(times), window)
    ensures rs == Extend(shorter, Last(times), window)
  {
    var run := Last(rs);
    FrontOfAppend(Flatten(Front(rs)), run);
    if |run| == 1 {
      shorter := DropSingle(rs, window);
    } else {
      shorter := DropFromRun(rs, window);
    }
  }

  /** The runs are a session cut, and the only one. */
  lemma {:induction false} RunsAreTheSessions(rs: seq<seq<int>>, times: seq<int>, window: int)
    ensures IsSessionCut(rs, times, window) <==> rs == Runs(times, window)
    decreases |times|
  {
    if times == [] {
      if rs != [] {
        assert |Flatten(rs)| >= |Last(rs)|;
      }
    } else {
      var front, t := Front(times), Last(times);
      assert times == front + [t];
      RunsAreTheSessions(Runs(front, window), front, window);
      ExtendCuts(Runs(front, window), front, t, window);
      if IsSessionCut(rs, times, window) {
        var shorter := DropLast(rs, times, window);
        RunsAreTheSessions(shorter, front, window);
      }
    }
  }

  /** The last session, in the time line: its longest tail whose gaps are within the window. */
  lemma {:induction false} LastRunIsTail(times: seq<int>, window: int) returns (k: nat)
    requires times != []
    ensures k < |times| && Last(Runs(times, window)) == times[k..]
    ensures forall i :: k < i < |times| ==> times[i] - times[i - 1] <= window
    ensures k > 0 ==> times[k] - times[k - 1] > window
  {
    var front, t := Front(times), Last(times);
    Snoc(times);
    RunsStep(front, t, window);
    k := |front|;
    if front != [] && t - Last(front) <= window {
      k := LastRunIsTail(front, window);
    }
    assert times[k..] == front[k..] + [t];
  }

  // ----- time lines in order -----

  ghost predicate Sorted(times: seq<int>) {
    forall i, j :: 0 <= i <= j < |times| ==> times[i] <= times[j]
  }

  /** Runs that are sorted inside, and start more than a window after any earlier run ended. */
  ghost predicate Ordered(rs: seq<seq<int>>, window: int) {
    && (forall i :: 0 <= i < |rs| ==> rs[i] != [] && Sorted(rs[i]))
    && (forall i, j :: 0 <= i < j < |rs| ==> Last(rs[i]) <= rs[j][0] && rs[j][0] - Last(rs[i]) > window)
  }

  lemma SortedAppend(run: seq<int>, t: int)
    requires run != [] && Sorted(run) && Last(run) <= t
    ensures Sorted(run + [t])
  {
    var e := run + [t];
    forall i, j | 0 <= i <= j < |e|
      ensures e[i] <= e[j]
    {
      if j == |run| && i < j {
        assert run[i] <= run[|run| - 1];
      }
    }
  }

  lemma ExtendOrdered(rs: seq<seq<int>>, t: int, window: int)
    requires Ordered(rs, window)
    requires rs != [] ==> Last(Last(rs)) <= t
    ensures Ordered(Extend(rs, t, window), window)
  {
    var e := Extend(rs, t, window);
    if rs != [] && t - Last(Last(rs)) <= window {
      SortedAppend(Last(rs), t);
      assert forall j :: 0 <= j < |e| ==> e[j][0] == rs[j][0];
    } else {
      forall i | 0 <= i < |rs|
        ensures Last(rs[i]) <= t && t - Last(rs[i]) > window
      {
        if i < |rs| - 1 {
          assert Sorted(rs[|rs| - 1]) && rs[|rs| - 1][0] <= Last(rs[|rs| - 1]);
        }
      }
    }
  }

  /** In a sorted time line the runs are sorted and more than a window apart. */
  lemma {:induction false} SortedRuns(times: seq<int>, window: int)
    requires Sorted(times)
    ensures Ordered(Runs(times, window), window)
  {
    if times != [] {
      SortedRuns(Front(times), window);
      ExtendOrdered(Runs(Front(times), window), Last(times), window);
    }
  }

  /** Every time of the line lies inside some run. */
  lemma {:induction false} EveryTimeInARun(times: seq<int>, window: int, i: nat) returns (r: nat, p: nat)
    requires i < |times|
    ensures r < |Runs(times, window)| && p < |Runs(times, window)[r]|
    ensures Runs(times, window)[r][p] == times[i]
  {
    var front := Front(times);
    var rs, all := Runs(front, window), Runs(times, window);
    if i == |times| - 1 {
      r, p := |all| - 1, |Last(all)| - 1;
    } else {
      r, p := EveryTimeInARun(front, window, i);
      assert r < |all| && all[r][p] == rs[r][p];
    }
  }

  // ----- part of a time line -----

  /** The times that are marked. */
  function Kept(times: seq<int>, marks: seq<bool>): seq<int>
    requires |marks| == |times|
  {
    if times == [] then []
    else if Last(marks) then Kept(Front(times), Front(marks)) + [Last(times)]
    else Kept(Front(times), Front(marks))
  }

  /** The next time belongs to the last session. */
  predicate Continues(times: seq<int>, t: int, window: int) {
    times != [] && t - Last(times) <= window
  }

  /** How many times of the last session are marked. */
  function Share(times: seq<int>, marks: seq<bool>, window: int): nat
    requires |marks| == |times|
  {
    if times == [] then 0
    else
      (if Continues(Front(times), Last(times), window) then Share(Front(times), Front(marks), window) else 0)
      + (if Last(marks) then 1 else 0)
  }

  /** The last `n` marks are all set. */
  ghost predicate LastAllMarked(marks: seq<bool>, n: nat) {
    forall i :: 0 <= i < |marks| && |marks| - n <= i ==> marks[i]
  }

  lemma MarksStep(marks: seq<bool>, n: nat)
    requires marks != []
    ensures LastAllMarked(marks, n + 1) <==> LastAllMarked(Front(marks), n) && Last(marks)
  {
    forall i | 0 <= i < |Front(marks)|
      ensures Front(marks)[i] == marks[i]
    {
    }
    if LastAllMarked(marks, n + 1) {
      assert marks[|marks| - 1];
    }
  }

  lemma {:induction false} FullShare(times: seq<int>, marks: seq<bool>, window: int)
    requires |marks| == |times| && times != []
    ensures Share(times, marks, window) <= |Last(Runs(times, window))| <= |times|
    ensures Share(times, marks, window) == |Last(Runs(times, window))| <==>
            LastAllMarked(marks, |Last(Runs(times, window))|)
  {
    var front, t := Front(times), Last(times);
    Snoc(times);
    RunsStep(front, t, window);
    var n := |Last(Runs(times, window))|;
    if Continues(front, t, window) {
      FullShare(front, Front(marks), window);
      MarksStep(marks, n - 1);
    } else {
      MarksStep(marks, 0);
    }
  }

  /** How the marked times cut into sessions of their own, as far as the last session goes. */
  ghost predicate KeptSessions(times: seq<int>, kept: seq<int>, share: nat, window: int)
    requires times != []
  {
    var session := Last(Runs(times, window));
    && (share == 0 ==> kept == [] || session[0] - Last(kept) > window)
    && (share > 0 ==> kept != [] && |Last(Runs(kept, window))| <= share)
    && (share == |session| ==> kept != [] && Last(Runs(kept, window)) == session)
  }

  lemma SessionStarts(times: seq<int>, window: int)
    requires times != [] && Ordered(Runs(times, window), window)
    ensures Last(Runs(times, window))[0] <= Last(times)
  {
    var runs := Runs(times, window);
    assert Sorted(runs[|runs| - 1]);
  }

  lemma SortedFront(times: seq<int>)
    requires times != [] && Sorted(times)
    ensures Sorted(Front(times))
    ensures Front(times) != [] ==> Last(Front(times)) <= Last(times)
  {
  }

  /**
   * The marked times of a sorted time line: if none of the last session is marked, the marked
   * times ended more than a window before it; if all are, they end with that very session; and
   * their last session is never longer than the marked part.
   */
  lemma {:induction false} MarkedSessions(times: seq<int>, marks: seq<bool>, window: int)
    requires |marks| == |times| && times != [] && Sorted(times)
    ensures KeptSessions(times, Kept(times, marks), Share(times, marks, window), window)
    ensures Kept(times, marks) != [] ==> Last(Kept(times, marks)) <= Last(times)
  {
    var front, t := Front(times), Last(times);
    Snoc(times);
    RunsStep(front, t, window);
    var kept := Kept(front, Front(marks));
    RunsStep(kept, t, window);
    SortedFront(times);
    if front != [] {
      MarkedSessions(front, Front(marks), window);
      FullShare(front, Front(marks), window);
      SortedRuns(front, window);
      SessionStarts(front, window);
    }
  }
}
