/**
 * The NFT "lost" debounce of `process`.  The last found NFT marker index and
 * the time it was found live in two globals (`markerFound`,
 * `markerFoundTime`); here they are an explicit value and the clock reading
 * is a parameter.  A lost event fires only after the marker has stayed
 * absent for more than 200 ms; inside that window `process` returns early.
 */
module NftDebounce {
  import opened Base

  /** Milliseconds an NFT marker must stay absent before it is reported lost. */
  const MARKER_LOST_TIME: int := 200

  /** The global debounce state: which NFT marker was last found, and when (ms). */
  datatype Debounce = Debounce(markerFound: Option<int>, markerFoundTime: int)

  /** The state before any marker has ever been found. */
  const Initial: Debounce := Debounce(None, 0)

  /**
   * What one NFT marker's turn in `process` produces: a found event, a lost
   * event, an early return from `process` (Hold), or nothing (Quiet).
   */
  datatype Outcome = Found | Lost | Hold | Quiet

  datatype Stepped = Stepped(state: Debounce, outcome: Outcome)

  /** One NFT marker `i` at clock reading `now`, found or not this frame. */
  function Step(d: Debounce, i: int, found: bool, now: int): (r: Stepped)
    ensures r.outcome == Found <==> found
    ensures r.outcome == Found ==> r.state == Debounce(Some(i), now)
    ensures r.outcome == Lost <==>
      !found && d.markerFound == Some(i) && now - d.markerFoundTime > MARKER_LOST_TIME
    ensures r.outcome == Lost ==> r.state == d.(markerFound := None)
    ensures r.outcome == Hold <==>
      !found && d.markerFound == Some(i) && now - d.markerFoundTime <= MARKER_LOST_TIME
    ensures r.outcome == Hold || r.outcome == Quiet ==> r.state == d
  {
    if found then Stepped(Debounce(Some(i), now), Found)
    else if d.markerFound == Some(i) then
      if now - d.markerFoundTime <= MARKER_LOST_TIME then Stepped(d, Hold)
      else Stepped(d.(markerFound := None), Lost)
    else Stepped(d, Quiet)
  }

  /** One frame's observation of a single NFT marker: found or not, and the clock reading. */
  datatype Observation = Observation(found: bool, now: int)

  datatype Trace = Trace(state: Debounce, outcomes: seq<Outcome>)

  /** A single NFT marker `i` observed over consecutive frames. */
  function Run(d: Debounce, i: int, obs: seq<Observation>): (r: Trace)
    ensures |r.outcomes| == |obs|
  {
    if |obs| == 0 then Trace(d, [])
    else
      var prev := Run(d, i, obs[..|obs| - 1]);
      var s := Step(prev.state, i, obs[|obs| - 1].found, obs[|obs| - 1].now);
      Trace(s.state, prev.outcomes + [s.outcome])
  }

  /** Between positions j and k (both exclusive) there is neither a found nor a lost outcome. */
  ghost predicate Silent(outs: seq<Outcome>, j: int, k: int)
    requires 0 <= j <= k <= |outs|
  {
    forall l :: j < l < k ==> outs[l] == Hold || outs[l] == Quiet
  }

  /** Position j is the last found outcome before k, with no lost outcome after it. */
  ghost predicate OpenEpisode(outs: seq<Outcome>, obs: seq<Observation>, j: int, k: int)
    requires |outs| == |obs|
    requires 0 <= j < k <= |outs|
  {
    outs[j] == Found && Silent(outs, j, k)
  }

  /**
   * The debounce state tracks the open found episode of marker i: the state
   * names marker i exactly when some found outcome has not yet been closed by
   * a lost one, and its time is that found frame's clock reading.
   */
  lemma {:induction false} RunTracksEpisode(d: Debounce, i: int, obs: seq<Observation>)
    requires d.markerFound != Some(i)
    ensures var r := Run(d, i, obs);
      r.state.markerFound == Some(i) <==>
        (exists j :: 0 <= j < |obs| && OpenEpisode(r.outcomes, obs, j, |obs|))
    ensures var r := Run(d, i, obs);
      forall j :: 0 <= j < |obs| && OpenEpisode(r.outcomes, obs, j, |obs|) ==>
        r.state.markerFoundTime == obs[j].now
  {
    if |obs| > 0 {
      var n := |obs| - 1;
      var prev := Run(d, i, obs[..n]);
      RunTracksEpisode(d, i, obs[..n]);
      var s := Step(prev.state, i, obs[n].found, obs[n].now);
      var r := Run(d, i, obs);
      assert r.outcomes == prev.outcomes + [s.outcome];
      assert r.state == s.state;
      forall j | 0 <= j < n
        ensures OpenEpisode(r.outcomes, obs, j, |obs|) <==>
          OpenEpisode(prev.outcomes, obs[..n], j, n) && (s.outcome == Hold || s.outcome == Quiet)
      {
        assert r.outcomes[j] == prev.outcomes[j];
        if OpenEpisode(r.outcomes, obs, j, |obs|) {
          forall l | j < l < n
            ensures prev.outcomes[l] == Hold || prev.outcomes[l] == Quiet
          {
            assert r.outcomes[l] == prev.outcomes[l];
          }
          assert r.outcomes[n] == s.outcome;
        }
        if OpenEpisode(prev.outcomes, obs[..n], j, n) && (s.outcome == Hold || s.outcome == Quiet) {
          forall l | j < l < |obs|
            ensures r.outcomes[l] == Hold || r.outcomes[l] == Quiet
          {
            if l < n {
              assert r.outcomes[l] == prev.outcomes[l];
            }
          }
        }
      }
      if s.outcome == Found {
        assert OpenEpisode(r.outcomes, obs, n, |obs|);
      } else {
        assert !OpenEpisode(r.outcomes, obs, n, |obs|);
      }
    }
  }

  /**
   * A lost outcome at frame k closes an episode: there is an earlier found
   * frame j, no found or lost outcome in between, and more than 200 ms
   * passed between frame j and frame k.
   */
  lemma {:induction false} LostOnlyAfterWindow(d: Debounce, i: int, obs: seq<Observation>, k: nat)
    requires d.markerFound != Some(i)
    requires k < |obs|
    requires Run(d, i, obs).outcomes[k] == Lost
    ensures exists j ::
      0 <= j < k && OpenEpisode(Run(d, i, obs).outcomes, obs, j, k) && obs[k].now - obs[j].now > MARKER_LOST_TIME
  {
    var pre := obs[..k + 1];
    RunPrefix(d, i, obs, k + 1);
    var rp := Run(d, i, pre);
    var r := Run(d, i, obs);
    var prev := Run(d, i, obs[..k]);
    assert pre[..k] == obs[..k];
    RunTracksEpisode(d, i, obs[..k]);
    var s := Step(prev.state, i, obs[k].found, obs[k].now);
    assert rp.outcomes == prev.outcomes + [s.outcome];
    assert s.outcome == Lost;
    var j :| 0 <= j < k && OpenEpisode(prev.outcomes, obs[..k], j, k);
    assert prev.state.markerFoundTime == obs[j].now;
    forall l | 0 <= l < k
      ensures r.outcomes[l] == prev.outcomes[l]
    {
      assert r.outcomes[l] == rp.outcomes[l];
    }
    assert OpenEpisode(r.outcomes, obs, j, k);
  }

  /** The outcomes over a prefix of the frames are the prefix of the outcomes. */
  lemma {:induction false} RunPrefix(d: Debounce, i: int, obs: seq<Observation>, n: nat)
    requires n <= |obs|
    ensures Run(d, i, obs[..n]).outcomes == Run(d, i, obs).outcomes[..n]
    decreases |obs| - n
  {
    if n < |obs| {
      RunPrefix(d, i, obs, n + 1);
      var pre := obs[..n + 1];
      assert pre[..n] == obs[..n];
      assert Run(d, i, pre).outcomes == Run(d, i, obs[..n]).outcomes + [Run(d, i, pre).outcomes[n]];
    } else {
      assert obs[..n] == obs;
    }
  }

  /** At most one lost event per found episode: two lost outcomes always have a found outcome between them. */
  lemma {:induction false} NoDoubleLost(d: Debounce, i: int, obs: seq<Observation>, a: nat, b: nat)
    requires d.markerFound != Some(i)
    requires a < b < |obs|
    requires Run(d, i, obs).outcomes[a] == Lost && Run(d, i, obs).outcomes[b] == Lost
    ensures exists c :: a < c < b && Run(d, i, obs).outcomes[c] == Found
  {
    LostOnlyAfterWindow(d, i, obs, b);
    var outs := Run(d, i, obs).outcomes;
    var j :| 0 <= j < b && OpenEpisode(outs, obs, j, b) && obs[b].now - obs[j].now > MARKER_LOST_TIME;
    assert outs[a] == Lost;
    assert a < j;
  }

  /**
   * A dropped frame at 60 frames per second is no loss: found, found,
   * absent, found at 0, 16, 33 and 50 ms reports no lost event.
   */
  lemma DroppedFrameIsNotLost()
    ensures Run(Initial, 0, [Observation(true, 0), Observation(true, 16),
                             Observation(false, 33), Observation(true, 50)]).outcomes
            == [Found, Found, Hold, Found]
  {
    var obs := [Observation(true, 0), Observation(true, 16), Observation(false, 33), Observation(true, 50)];
    assert obs[..0] == [];
    assert obs[..1][..0] == obs[..0];
    assert obs[..2][..1] == obs[..1];
    assert obs[..3][..2] == obs[..2];
    assert obs[..3] == obs[..3];
    assert obs[..4] == obs;
    assert Run(Initial, 0, obs[..1]).state == Debounce(Some(0), 0);
    assert Run(Initial, 0, obs[..2]).state == Debounce(Some(0), 16);
    assert Run(Initial, 0, obs[..3]).state == Debounce(Some(0), 16);
    assert Run(Initial, 0, obs[..3]).outcomes == [Found, Found, Hold];
  }
}
