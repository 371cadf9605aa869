/** The orbit trail `pathPoints`: a first-in first-out window over the
    positions the engine has visited, capped at `MaxPoints` entries. */
module Trail {

  /** The trail is shifted once it holds more than this many points. */
  const MaxPoints: nat := 2000

  function Min(a: int, b: int): int
  {
    if a < b then a else b
  }

  /** `pathPoints.push(p)`, then `shift()` if the trail has grown past the
      cap. The new point is the newest; what is kept of the old trail is its
      newest part, and only the single oldest point is evicted. */
  function Push<T>(trail: seq<T>, p: T): (r: seq<T>)
    ensures |r| == if |trail| < MaxPoints then |trail| + 1 else |trail|
    ensures r[|r| - 1] == p
    ensures r[..|r| - 1] == trail[|trail| + 1 - |r|..]
  {
    var pushed := trail + [p];
    if |pushed| > MaxPoints then pushed[1..] else pushed
  }

  /** The trail left by pushing `points` one after another onto an empty
      trail. */
  function Replay<T>(points: seq<T>): seq<T>
  {
    if |points| == 0 then [] else Push(Replay(points[..|points| - 1]), points[|points| - 1])
  }

  /** The newest `min(n, MaxPoints)` of `points`, oldest first. */
  function Window<T>(points: seq<T>): (w: seq<T>)
    ensures |w| <= MaxPoints
  {
    points[|points| - Min(|points|, MaxPoints)..]
  }

  /** The trail is exactly the newest `min(n, MaxPoints)` of the `n` points
      pushed, oldest first. */
  lemma {:induction false} ReplayWindow<T>(points: seq<T>)
    ensures Replay(points) == points[|points| - Min(|points|, MaxPoints)..]
  {
    if |points| > 0 {
      var n := |points|;
      var init := points[..n - 1];
      var last := points[n - 1];
      ReplayWindow(init);
      var before := Replay(init);
      assert Replay(points) == Push(before, last);
      if n <= MaxPoints {
        assert before == init;
        assert Push(before, last) == init + [last];
        SplitLast(points);
      } else {
        assert before == init[n - 1 - MaxPoints..];
        assert Push(before, last) == (before + [last])[1..];
        WindowStep(points, MaxPoints);
      }
    }
  }

  lemma SplitLast<T>(s: seq<T>)
    requires |s| > 0
    ensures s[..|s| - 1] + [s[|s| - 1]] == s
  {
  }

  /** Sliding a window of width `w` one step to the right. */
  lemma WindowStep<T>(s: seq<T>, w: nat)
    requires 0 < w < |s|
    ensures (s[..|s| - 1][|s| - 1 - w..] + [s[|s| - 1]])[1..] == s[|s| - w..]
  {
    var a := s[..|s| - 1][|s| - 1 - w..];
    var b := (a + [s[|s| - 1]])[1..];
    var t := s[|s| - w..];
    assert |b| == |t| == w;
    forall i | 0 <= i < w
      ensures b[i] == t[i]
    {
      if i < w - 1 {
        assert b[i] == a[i + 1];
      }
    }
  }

  /** Pushing one more point extends the replay by that point. */
  lemma ReplaySnoc<T>(points: seq<T>, p: T)
    ensures Replay(points + [p]) == Push(Replay(points), p)
  {
    assert (points + [p])[..|points + [p]| - 1] == points;
  }

  /** The trail never holds more than `MaxPoints` points. */
  lemma {:induction false} ReplayBounded<T>(points: seq<T>)
    ensures |Replay(points)| <= MaxPoints
  {
    ReplayWindow(points);
  }

  /** Pushing one more point slides the window by that point. */
  lemma WindowSnoc<T>(points: seq<T>, p: T)
    ensures Window(points + [p]) == Push(Window(points), p)
  {
    ReplayWindow(points);
    ReplayWindow(points + [p]);
    ReplaySnoc(points, p);
  }
}
