/**
 * One user's `/ask` requests replayed through the admission rule, and the
 * bound that rule is there to keep: with a clock that never goes back, no
 * user is admitted more than `MaxRequestsPerMinute` times in any window.
 */
module RateLimitTrace {
  import opened Common
  import opened RateLimit

  ghost predicate Sorted(s: seq<int>)
  {
    forall i, j :: 0 <= i < j < |s| ==> s[i] <= s[j]
  }

  /** The user's stored list and the timestamps admitted so far. */
  datatype Trace = Trace(stored: seq<int>, admitted: seq<int>)

  /**
   * The state after the requests made at `times`, in that order, from a user
   * with no entry. Each step is what `AskDesk.Ask` does to that user's entry
   * for a registered user with a non-empty question: on admission the entry
   * becomes the `Admit` result, on rejection it is left as it was.
   */
  function Run(times: seq<int>, window: Window): (tr: Trace)
    decreases |times|
  {
    if times == [] then Trace([], [])
    else
      var prev := Run(times[..|times| - 1], window);
      var now := times[|times| - 1];
      match Admit(prev.stored, now, window)
      case None => prev
      case Some(s) => Trace(s, prev.admitted + [now])
  }

  /** Filtering at `a` and then at a later `b` is filtering at `b`. */
  lemma {:induction false} RecentTwice(s: seq<int>, a: int, b: int, window: int)
    requires a <= b
    ensures Recent(Recent(s, a, window), b, window) == Recent(s, b, window)
  {
    if s != [] {
      RecentTwice(s[1..], a, b, window);
    }
  }

  /** The filter distributes over concatenation. */
  lemma {:induction false} RecentAppend(s: seq<int>, t: seq<int>, now: int, window: int)
    ensures Recent(s + t, now, window) == Recent(s, now, window) + Recent(t, now, window)
  {
    if s == [] {
      assert s + t == t;
    } else {
      assert (s + t)[1..] == s[1..] + t;
      RecentAppend(s[1..], t, now, window);
    }
  }

  /** Every stamp in the window counts: a tail of in-window stamps lower-bounds the filter. */
  lemma {:induction false} RecentKeepsTail(s: seq<int>, now: int, window: int, j: nat)
    requires j <= |s|
    requires forall i :: j <= i < |s| ==> now - s[i] < window
    ensures |Recent(s, now, window)| >= |s| - j
  {
    if s != [] {
      RecentKeepsTail(s[1..], now, window, if j == 0 then 0 else j - 1);
    }
  }

  /** The admitted stamps are nondecreasing and none is later than the last request. */
  lemma {:induction false} AdmittedSorted(times: seq<int>, window: Window)
    requires Sorted(times)
    ensures Sorted(Run(times, window).admitted)
    ensures forall i :: 0 <= i < |Run(times, window).admitted| ==>
      Run(times, window).admitted[i] <= times[|times| - 1]
  {
    if times != [] {
      var front := times[..|times| - 1];
      AdmittedSorted(front, window);
    }
  }

  /**
   * With a nondecreasing clock, from any later time `n` on, the stored list
   * and the full admission history count the same stamps: what the filter
   * dropped could never count again.
   */
  lemma {:induction false} StoredAgreesWithHistory(times: seq<int>, window: Window, n: int)
    requires Sorted(times)
    requires times != [] ==> times[|times| - 1] <= n
    ensures Recent(Run(times, window).stored, n, window) == Recent(Run(times, window).admitted, n, window)
  {
    if times != [] {
      var front := times[..|times| - 1];
      var now := times[|times| - 1];
      var prev := Run(front, window);
      StoredAgreesWithHistory(front, window, n);
      match Admit(prev.stored, now, window)
      case None =>
      case Some(s) =>
        assert s == Recent(prev.stored, now, window) + [now];
        RecentAppend(Recent(prev.stored, now, window), [now], n, window);
        RecentTwice(prev.stored, now, n, window);
        RecentAppend(prev.admitted, [now], n, window);
    }
  }

  /** Any six consecutive admissions of one user lie at least a window apart. */
  lemma {:induction false} AdmissionsSpreadOut(times: seq<int>, window: Window)
    requires Sorted(times)
    ensures forall k :: MaxRequestsPerMinute <= k < |Run(times, window).admitted| ==>
      Run(times, window).admitted[k] - Run(times, window).admitted[k - MaxRequestsPerMinute] >= window
  {
    if times != [] {
      var front := times[..|times| - 1];
      var now := times[|times| - 1];
      var prev := Run(front, window);
      AdmissionsSpreadOut(front, window);
      match Admit(prev.stored, now, window)
      case None =>
      case Some(s) =>
        var a := prev.admitted;
        if |a| >= MaxRequestsPerMinute {
          var j := |a| - MaxRequestsPerMinute;
          if now - a[j] < window {
            AdmittedSorted(front, window);
            StoredAgreesWithHistory(front, window, now);
            RecentKeepsTail(a, now, window, j);
            assert false;
          }
        }
        assert Run(times, window).admitted == a + [now];
    }
  }

  /** How many stamps of `s` lie in the half-open interval `[lo, hi)`. */
  function CountIn(s: seq<int>, lo: int, hi: int): (c: nat)
    ensures c <= |s|
  {
    if s == [] then 0 else (if lo <= s[0] < hi then 1 else 0) + CountIn(s[1..], lo, hi)
  }

  /** Counting over a sequence is counting over its two halves. */
  lemma {:induction false} CountSplit(s: seq<int>, j: nat, lo: int, hi: int)
    requires j <= |s|
    ensures CountIn(s, lo, hi) == CountIn(s[..j], lo, hi) + CountIn(s[j..], lo, hi)
  {
    if j == 0 {
      assert s[..j] == [] && s[j..] == s;
    } else {
      CountSplit(s[1..], j - 1, lo, hi);
      assert s[1..][..j - 1] == s[..j][1..];
      assert s[1..][j - 1..] == s[j..];
    }
  }

  /** A sequence with no stamp in `[lo, hi)` counts zero. */
  lemma {:induction false} CountOutside(s: seq<int>, lo: int, hi: int)
    requires forall i :: 0 <= i < |s| ==> s[i] < lo || hi <= s[i]
    ensures CountIn(s, lo, hi) == 0
  {
    if s != [] {
      CountOutside(s[1..], lo, hi);
    }
  }

  /** The first index at or after `i` whose stamp is at least `a`, or `|s|`. */
  function FirstFrom(s: seq<int>, a: int, i: nat): (m: nat)
    requires i <= |s|
    ensures i <= m <= |s|
    ensures forall k :: i <= k < m ==> s[k] < a
    ensures m < |s| ==> s[m] >= a
    decreases |s| - i
  {
    if i == |s| || s[i] >= a then i else FirstFrom(s, a, i + 1)
  }

  /** Past the fifth stamp from `m` on, every stamp is at least one window after `adm[m]`. */
  lemma LateAfterWindow(adm: seq<int>, window: Window, a: int, m: nat)
    requires Sorted(adm) && m + MaxRequestsPerMinute < |adm| && adm[m] >= a
    requires forall k :: MaxRequestsPerMinute <= k < |adm| ==> adm[k] - adm[k - MaxRequestsPerMinute] >= window
    ensures forall i :: 0 <= i < |adm[m..][MaxRequestsPerMinute..]| ==> a + window <= adm[m..][MaxRequestsPerMinute..][i]
  {
    forall i | 0 <= i < |adm[m..][MaxRequestsPerMinute..]|
      ensures a + window <= adm[m..][MaxRequestsPerMinute..][i]
    {
      assert adm[m..][MaxRequestsPerMinute..][i] == adm[m + MaxRequestsPerMinute + i];
      assert adm[m + MaxRequestsPerMinute] - adm[m] >= window;
    }
  }

  /**
   * A sorted sequence whose every stamp comes at least one window after the
   * stamp five places earlier has at most five stamps in any interval of one
   * window's length.
   */
  lemma SpreadOutBound(adm: seq<int>, window: Window, a: int)
    requires Sorted(adm)
    requires forall k :: MaxRequestsPerMinute <= k < |adm| ==> adm[k] - adm[k - MaxRequestsPerMinute] >= window
    ensures CountIn(adm, a, a + window) <= MaxRequestsPerMinute
  {
    var m := FirstFrom(adm, a, 0);
    CountSplit(adm, m, a, a + window);
    CountOutside(adm[..m], a, a + window);
    var rest := adm[m..];
    if |rest| > MaxRequestsPerMinute {
      CountSplit(rest, MaxRequestsPerMinute, a, a + window);
      var late := rest[MaxRequestsPerMinute..];
      LateAfterWindow(adm, window, a, m);
      CountOutside(late, a, a + window);
    }
  }

  /**
   * The headline bound: with a clock that never goes back, one user is
   * admitted at most `MaxRequestsPerMinute` times in any interval of one
   * window's length.
   */
  lemma AtMostFivePerWindow(times: seq<int>, window: Window, a: int)
    requires Sorted(times)
    ensures CountIn(Run(times, window).admitted, a, a + window) <= MaxRequestsPerMinute
  {
    AdmittedSorted(times, window);
    AdmissionsSpreadOut(times, window);
    SpreadOutBound(Run(times, window).admitted, window, a);
  }

  /** Replaying one more request is one more admission step. */
  lemma RunSnoc(times: seq<int>, now: int, window: Window)
    ensures Run(times + [now], window) ==
      match Admit(Run(times, window).stored, now, window)
      case None => Run(times, window)
      case Some(s) => Trace(s, Run(times, window).admitted + [now])
  {
    assert (times + [now])[..|times|] == times;
  }

  /** With every stamp still in the window the filter keeps them all. */
  lemma {:induction false} RecentKeepsAll(s: seq<int>, now: int, window: int)
    requires forall i :: 0 <= i < |s| ==> now - s[i] < window
    ensures Recent(s, now, window) == s
  {
    if s != [] {
      RecentKeepsAll(s[1..], now, window);
    }
  }

  /** With every stamp out of the window the filter keeps none. */
  lemma {:induction false} RecentDropsAll(s: seq<int>, now: int, window: int)
    requires forall i :: 0 <= i < |s| ==> now - s[i] >= window
    ensures Recent(s, now, window) == []
  {
    if s != [] {
      RecentDropsAll(s[1..], now, window);
    }
  }

  /** A request admitted against a state whose stamps all still count. */
  lemma AdmitStep(times: seq<int>, now: int, window: Window, stored: seq<int>, admitted: seq<int>)
    requires Run(times, window) == Trace(stored, admitted)
    requires |stored| < MaxRequestsPerMinute
    requires forall i :: 0 <= i < |stored| ==> now - stored[i] < window
    ensures Run(times + [now], window) == Trace(stored + [now], admitted + [now])
  {
    RunSnoc(times, now, window);
    RecentKeepsAll(stored, now, window);
  }

  /** A request against a state whose stamps have all left the window. */
  lemma PruneStep(times: seq<int>, now: int, window: Window, stored: seq<int>, admitted: seq<int>)
    requires Run(times, window) == Trace(stored, admitted)
    requires forall i :: 0 <= i < |stored| ==> now - stored[i] >= window
    ensures Run(times + [now], window) == Trace([now], admitted + [now])
  {
    RunSnoc(times, now, window);
    RecentDropsAll(stored, now, window);
    assert [] + [now] == [now];
  }

  /** Every stamp stored before the last request of a burst still counts for it. */
  lemma BurstInWindow(stored: seq<int>, init: seq<int>, x: int, hi: int)
    requires forall i :: 0 <= i < |stored| ==> hi - 10 <= stored[i]
    requires forall i :: 0 <= i < |init| ==> hi - 10 <= init[i]
    requires x < hi
    ensures forall i :: 0 <= i < |stored + init| ==> x - (stored + init)[i] < 10
  {
  }

  /** Appending the last element back onto the front part. */
  lemma SnocLast(a: seq<int>, xs: seq<int>)
    requires xs != []
    ensures a + xs[..|xs| - 1] + [xs[|xs| - 1]] == a + xs
  {
    assert xs[..|xs| - 1] + [xs[|xs| - 1]] == xs;
  }

  /**
   * A burst of requests before `hi` is admitted in full when the stored list
   * and the burst together hold at most five stamps, none older than
   * `hi - 10`.
   */
  lemma {:induction false} BurstAdmitted(pre: seq<int>, stored: seq<int>, admitted: seq<int>, xs: seq<int>, hi: int)
    requires Run(pre, 10) == Trace(stored, admitted)
    requires |stored| + |xs| <= MaxRequestsPerMinute
    requires forall i :: 0 <= i < |stored| ==> hi - 10 <= stored[i]
    requires forall i :: 0 <= i < |xs| ==> hi - 10 <= xs[i] < hi
    ensures Run(pre + xs, 10) == Trace(stored + xs, admitted + xs)
    decreases |xs|
  {
    if xs == [] {
      assert pre + xs == pre && stored + xs == stored && admitted + xs == admitted;
    } else {
      var init := xs[..|xs| - 1];
      BurstAdmitted(pre, stored, admitted, init, hi);
      BurstInWindow(stored, init, xs[|xs| - 1], hi);
      AdmitStep(pre + init, xs[|xs| - 1], 10, stored + init, admitted + init);
      SnocLast(pre, xs);
      SnocLast(stored, xs);
      SnocLast(admitted, xs);
    }
  }

  /** A sequence whose every stamp is in `[lo, hi)` counts its length. */
  lemma {:induction false} CountInside(s: seq<int>, lo: int, hi: int)
    requires forall i :: 0 <= i < |s| ==> lo <= s[i] < hi
    ensures CountIn(s, lo, hi) == |s|
  {
    if s != [] {
      CountInside(s[1..], lo, hi);
    }
  }

  /** Five requests one millisecond apart from an empty list are all admitted. */
  lemma FirstBurst(b: int)
    ensures Run([b, b + 1, b + 2, b + 3, b + 4], 10)
         == Trace([b, b + 1, b + 2, b + 3, b + 4], [b, b + 1, b + 2, b + 3, b + 4])
  {
    var empty: seq<int> := [];
    assert Run(empty, 10) == Trace([], []);
    BurstAdmitted(empty, empty, empty, [b, b + 1, b + 2, b + 3, b + 4], b + 5);
    assert empty + [b, b + 1, b + 2, b + 3, b + 4] == [b, b + 1, b + 2, b + 3, b + 4];
  }

  /** A sixth request far in the future prunes the first five and is admitted. */
  lemma JumpAhead(b: int)
    ensures Run([b, b + 1, b + 2, b + 3, b + 4] + [b + 100], 10)
         == Trace([b + 100], [b, b + 1, b + 2, b + 3, b + 4] + [b + 100])
  {
    var first := [b, b + 1, b + 2, b + 3, b + 4];
    FirstBurst(b);
    PruneStep(first, b + 100, 10, first, first);
  }

  /**
   * Without a nondecreasing clock lazy pruning changes a decision: after the
   * jump, at `b + 5` the stored list holds one stamp that counts, so the
   * request is admitted, while the full history holds six and would reject it.
   */
  lemma BackwardClockPrunesTooMuch(b: int)
    ensures |Recent(Run([b, b + 1, b + 2, b + 3, b + 4] + [b + 100], 10).stored, b + 5, 10)| == 1
    ensures |Recent(Run([b, b + 1, b + 2, b + 3, b + 4] + [b + 100], 10).admitted, b + 5, 10)| == 6
  {
    JumpAhead(b);
    var tr := Run([b, b + 1, b + 2, b + 3, b + 4] + [b + 100], 10);
    CountsAfterJump(tr.stored, tr.admitted, b);
  }

  /** The counting stamps at `b + 5` of the state `JumpAhead` reaches. */
  lemma CountsAfterJump(stored: seq<int>, admitted: seq<int>, b: int)
    requires stored == [b + 100] && admitted == [b, b + 1, b + 2, b + 3, b + 4] + [b + 100]
    ensures |Recent(stored, b + 5, 10)| == 1 && |Recent(admitted, b + 5, 10)| == 6
  {
    RecentKeepsAll(stored, b + 5, 10);
    RecentKeepsAll(admitted, b + 5, 10);
  }

  /** After the jump, a request back in the first window is admitted. */
  lemma StepBack(b: int)
    ensures Run([b, b + 1, b + 2, b + 3, b + 4] + [b + 100] + [b + 5], 10).admitted
         == [b, b + 1, b + 2, b + 3, b + 4] + [b + 100] + [b + 5]
  {
    JumpAhead(b);
    AdmitStep([b, b + 1, b + 2, b + 3, b + 4] + [b + 100], b + 5, 10,
              [b + 100], [b, b + 1, b + 2, b + 3, b + 4] + [b + 100]);
  }

  /** Six of those seven stamps lie in `[b, b + 10)`. */
  lemma CountBurst(b: int)
    ensures CountIn([b, b + 1, b + 2, b + 3, b + 4] + [b + 100] + [b + 5], b, b + 10) == 6
  {
    var t := [b, b + 1, b + 2, b + 3, b + 4] + [b + 100] + [b + 5];
    CountSplit(t, 5, b, b + 10);
    assert t[..5] == [b, b + 1, b + 2, b + 3, b + 4];
    CountInside([b, b + 1, b + 2, b + 3, b + 4], b, b + 10);
    CountSplit(t[5..], 1, b, b + 10);
    assert t[5..][..1] == [b + 100];
    CountOutside([b + 100], b, b + 10);
    assert t[5..][1..] == [b + 5];
    CountInside([b + 5], b, b + 10);
  }

  /**
   * The bound needs a clock that never goes back: one request stamped far in
   * the future prunes every older stamp, and when the clock then steps back
   * the next request is admitted, putting six admissions in one window.
   */
  lemma BackwardClockBreaksBound(b: int)
    ensures CountIn(Run([b, b + 1, b + 2, b + 3, b + 4, b + 100, b + 5], 10).admitted, b, b + 10) == 6
  {
    var t := [b, b + 1, b + 2, b + 3, b + 4] + [b + 100] + [b + 5];
    assert t == [b, b + 1, b + 2, b + 3, b + 4, b + 100, b + 5];
    StepBack(b);
    CountBurst(b);
  }
}
