/**
 * One call of `ARController.prototype.process`: rotate the visibility flags
 * of all three registries, file every detected square under its registry
 * entry and solve its pose, walk the NFT markers through the lost debounce
 * (possibly returning early), then report the multimarker sets.
 *
 * The engine is not modelled: what it detected this frame is the `Frame`
 * input, and the pose solves are the `Solver` parameter.  Events are
 * returned in dispatch order instead of being sent to listeners.
 */
module Process {
  import opened Base
  import opened PoseMatrix
  import opened Tracking
  import opened NftDebounce
  import FrameArena

  /** What the engine reports for NFT marker i: found this frame, and its pose. */
  datatype NftInfo = NftInfo(found: bool, pose: Mat3x4)

  /**
   * What `getMultiEachMarker(i, j)` reports for one sub-marker: its `visible`
   * field, and the pose the engine leaves in its transform buffer, which
   * `process` converts before the sub-marker's event.
   */
  datatype SubInfo = SubInfo(visible: int, pose: Mat3x4)

  /** What the engine reports for one multimarker set: its robust pose and its sub-markers. */
  datatype MultiInfo = MultiInfo(pose: Mat3x4, subs: seq<SubInfo>)

  /** Everything the engine detected in this frame. */
  datatype Frame = Frame(markers: seq<MarkerInfo>, nft: seq<NftInfo>, multi: seq<MultiInfo>)

  /**
   * The engine's square pose solve: given the solve kind, the marker index,
   * the marker width and the entry's last pose (the seed of the continuous
   * solve), the new pose.
   */
  type Solver = (Solve, nat, real, Mat3x4) -> Mat3x4

  /**
   * The events `process` dispatches, in order.  Each event's `matrix` and
   * `matrixGL_RH` are the conversions of a 3x4 pose (see `Matrix` and
   * `MatrixGLRH`), so an event carries that pose: a found event the pose
   * just solved or reported, a lost event the controller's last pose (None
   * while the matrices are still all zero).
   */
  datatype Event =
    | GetMarker(index: nat, markerType: MarkerType, marker: MarkerInfo, pose: Mat3x4)
    | GetNFTMarker(index: nat, nft: NftInfo)
    | LostNFTMarker(index: nat, nft: NftInfo, last: Option<Mat3x4>)
    | GetMultiMarker(multiMarkerId: nat, pose: Mat3x4)
    | GetMultiMarkerSub(multiMarkerId: nat, markerIndex: nat, visible: int, pose: Mat3x4)

  /** A `setMarkerInfoDir` call: the engine is told the direction of detected marker `index`. */
  datatype SetDir = SetDir(index: nat, dir: int)

  /**
   * The controller state `process` reads and writes: the default width, the
   * three registries and the pose last converted into `transform_mat` and
   * `transformGL_RH`, which a lost event reports.  None stands for the
   * all-zero matrices of a new controller.
   */
  datatype Controller = Controller(
    defaultMarkerWidth: real,
    patternMarkers: Registry,
    barcodeMarkers: Registry,
    nftMarkers: Registry,
    lastPose: Option<Mat3x4>)

  const ZeroMat4: Mat4 := [0.0, 0.0, 0.0, 0.0, 0.0, 0.0, 0.0, 0.0, 0.0, 0.0, 0.0, 0.0, 0.0, 0.0, 0.0, 0.0]

  /** A new controller: default width 1, empty registries, zero matrices. */
  const NewController: Controller := Controller(DefaultMarkerWidth, map[], map[], map[], None)

  /** `transform_mat` holding the conversion of pose `p`, or zeros. */
  function GLOf(p: Option<Mat3x4>): (g: Mat4)
    ensures p.Some? ==> HasAffineBottomRow(g) && GLMatToTransMat(g) == p.value
    ensures p == None ==> g == ZeroMat4
  {
    match p
    case None => ZeroMat4
    case Some(t) => GLMatRoundTrip(t); TransMatToGLMat(t)
  }

  /** `transformGL_RH` holding the right-handed conversion of pose `p`, or zeros. */
  function GLRHOf(p: Option<Mat3x4>): (h: Mat4)
    ensures p.Some? ==> h == ArglCameraViewRHf(GLOf(p)) && ArglCameraViewRHf(h) == GLOf(p)
    ensures p == None ==> h == ZeroMat4
  {
    match p
    case None => ZeroMat4
    case Some(t) => RightHandedTwiceOnPose(t); ArglCameraViewRHf(TransMatToGLMat(t))
  }

  /** The pose whose conversions an event carries. */
  function EventPose(e: Event): Option<Mat3x4>
  {
    match e
    case GetMarker(_, _, _, p) => Some(p)
    case GetNFTMarker(_, nft) => Some(nft.pose)
    case LostNFTMarker(_, _, last) => last
    case GetMultiMarker(_, p) => Some(p)
    case GetMultiMarkerSub(_, _, _, p) => Some(p)
  }

  /** An event's `matrix` field. */
  function Matrix(e: Event): Mat4
  {
    GLOf(EventPose(e))
  }

  /** An event's `matrixGL_RH` field. */
  function MatrixGLRH(e: Event): Mat4
  {
    GLRHOf(EventPose(e))
  }

  /**
   * Every event's right-handed matrix is the conversion of its renderer
   * matrix, and the renderer matrix has bottom row 0 0 0 1 and gives back
   * the pose; a lost event before any conversion carries zeros in both.
   */
  lemma EventMatrices(e: Event)
    ensures EventPose(e).Some? ==>
      && MatrixGLRH(e) == ArglCameraViewRHf(Matrix(e))
      && HasAffineBottomRow(Matrix(e))
      && GLMatToTransMat(Matrix(e)) == EventPose(e).value
    ensures EventPose(e) == None ==> Matrix(e) == ZeroMat4 && MatrixGLRH(e) == ZeroMat4
  {
  }

  /** The registry of one kind. */
  function Reg(c: Controller, k: Kind): Registry
  {
    match k
    case PatternKind => c.patternMarkers
    case BarcodeKind => c.barcodeMarkers
    case NFTKind => c.nftMarkers
  }

  /** Whether registry `k` records `id` as seen in the current frame. */
  predicate SeenNow(c: Controller, k: Kind, id: int)
  {
    Now(Reg(c, k), id)
  }

  /** Whether registry `k` records `id` as seen in the previous frame. */
  predicate SeenBefore(c: Controller, k: Kind, id: int)
  {
    Before(Reg(c, k), id)
  }

  /** The flag rotation of all three registries; nothing else changes. */
  function RotateAll(c: Controller): (c': Controller)
    ensures forall k: Kind :: Reg(c', k).Keys == Reg(c, k).Keys
    ensures forall k: Kind, id :: SeenBefore(c', k, id) <==> SeenNow(c, k, id)
    ensures forall k: Kind, id :: !SeenNow(c', k, id)
    ensures c'.defaultMarkerWidth == c.defaultMarkerWidth
    ensures c'.lastPose == c.lastPose
  {
    var c' := c.(patternMarkers := RotateFlags(c.patternMarkers),
                 barcodeMarkers := RotateFlags(c.barcodeMarkers),
                 nftMarkers := RotateFlags(c.nftMarkers));
    assert forall k: Kind :: Reg(c', k) == RotateFlags(Reg(c, k));
    c'
  }

  /** The result of handling one detected square. */
  datatype SquareOut = SquareOut(c: Controller, event: Event, solve: Solve, dirs: seq<SetDir>)

  /**
   * One iteration of the square loop for detected marker `i`: the shared
   * pattern entry -1 is fetched first, then the marker's own entry; the
   * engine's direction is corrected when it disagrees with the pattern or
   * matrix direction; the pose is solved (continuously exactly when the type
   * is known and the entry was seen last frame); the entry is marked as seen
   * now and the pose is converted and reported.
   */
  function SquareStep(c: Controller, i: nat, m: MarkerInfo, solve: Solver): (r: SquareOut)
    ensures r.c.nftMarkers == c.nftMarkers && r.c.defaultMarkerWidth == c.defaultMarkerWidth
    ensures r.event.GetMarker? && r.event.index == i && r.event.markerType == Classify(m) && r.event.marker == m
    ensures r.c.lastPose == Some(r.event.pose)
    ensures Classify(m) == Pattern ==> r.dirs == (if m.dir != m.dirPatt then [SetDir(i, m.dirPatt)] else [])
    ensures Classify(m) == Barcode ==> r.dirs == (if m.dir != m.dirMatrix then [SetDir(i, m.dirMatrix)] else [])
    ensures Classify(m) == Unknown ==> r.dirs == []
  {
    var unknown := TrackMarkerId(c.patternMarkers, -1, None, c.defaultMarkerWidth);
    var t := Classify(m);
    var key := Slot(m).1;
    var tracked :=
      match t
      case Pattern => TrackMarkerId(unknown.registry, key, None, c.defaultMarkerWidth)
      case Barcode => TrackMarkerId(c.barcodeMarkers, key, None, c.defaultMarkerWidth)
      case Unknown => unknown;
    var dirs :=
      match t
      case Pattern => if m.dir != m.dirPatt then [SetDir(i, m.dirPatt)] else []
      case Barcode => if m.dir != m.dirMatrix then [SetDir(i, m.dirMatrix)] else []
      case Unknown => [];
    var how := ChooseSolve(t, tracked.entry);
    var pose := solve(how, i, tracked.entry.markerWidth, tracked.entry.matrix);
    var c' :=
      if t == Barcode then
        c.(patternMarkers := unknown.registry, barcodeMarkers := MarkSeen(tracked.registry, key, pose))
      else
        c.(patternMarkers := MarkSeen(tracked.registry, key, pose));
    SquareOut(c'.(lastPose := Some(pose)), GetMarker(i, t, m, pose), how, dirs)
  }

  /** One square adds pattern entry -1 and its own entry, and no other. */
  lemma SquareStepKeys(c: Controller, i: nat, m: MarkerInfo, solve: Solver)
    ensures var r := SquareStep(c, i, m, solve);
      && r.c.patternMarkers.Keys == c.patternMarkers.Keys + {-1} + (if Slot(m).0 == PatternKind then {Slot(m).1} else {})
      && r.c.barcodeMarkers.Keys == c.barcodeMarkers.Keys + (if Slot(m).0 == BarcodeKind then {Slot(m).1} else {})
  {
  }

  /** One square marks its own entry as seen now and changes no other entry's current-frame flag. */
  lemma SquareStepSeen(c: Controller, i: nat, m: MarkerInfo, solve: Solver)
    ensures SeenNow(SquareStep(c, i, m, solve).c, Slot(m).0, Slot(m).1)
    ensures forall k: Kind, id | (k, id) != Slot(m) ::
      SeenNow(SquareStep(c, i, m, solve).c, k, id) <==> SeenNow(c, k, id)
  {
    var r := SquareStep(c, i, m, solve);
    var unknown := TrackMarkerId(c.patternMarkers, -1, None, c.defaultMarkerWidth);
    TrackKeepsFlags(c.patternMarkers, -1, None, c.defaultMarkerWidth);
    match Classify(m)
    case Pattern =>
      TrackKeepsFlags(unknown.registry, m.idPatt, None, c.defaultMarkerWidth);
      assert r.c.barcodeMarkers == c.barcodeMarkers;
    case Barcode =>
      TrackKeepsFlags(c.barcodeMarkers, m.idMatrix, None, c.defaultMarkerWidth);
      assert r.c.patternMarkers == unknown.registry;
    case Unknown =>
      assert r.c.barcodeMarkers == c.barcodeMarkers;
  }

  /** The square's own entry holds the pose just solved and reported, as the event and the last converted pose do. */
  lemma SquareStepPose(c: Controller, i: nat, m: MarkerInfo, solve: Solver)
    ensures var r := SquareStep(c, i, m, solve);
      Slot(m).1 in Reg(r.c, Slot(m).0) && Reg(r.c, Slot(m).0)[Slot(m).1].matrix == r.event.pose
  {
    var unknown := TrackMarkerId(c.patternMarkers, -1, None, c.defaultMarkerWidth);
    match Classify(m)
    case Pattern =>
      TrackKeepsFlags(unknown.registry, m.idPatt, None, c.defaultMarkerWidth);
    case Barcode =>
    case Unknown =>
  }

  /** One square changes no entry's previous-frame flag. */
  lemma SquareStepBefore(c: Controller, i: nat, m: MarkerInfo, solve: Solver)
    ensures forall k: Kind, id :: SeenBefore(SquareStep(c, i, m, solve).c, k, id) <==> SeenBefore(c, k, id)
  {
    var r := SquareStep(c, i, m, solve);
    var unknown := TrackMarkerId(c.patternMarkers, -1, None, c.defaultMarkerWidth);
    TrackKeepsFlags(c.patternMarkers, -1, None, c.defaultMarkerWidth);
    match Classify(m)
    case Pattern =>
      TrackKeepsFlags(unknown.registry, m.idPatt, None, c.defaultMarkerWidth);
      assert r.c.barcodeMarkers == c.barcodeMarkers;
    case Barcode =>
      TrackKeepsFlags(c.barcodeMarkers, m.idMatrix, None, c.defaultMarkerWidth);
      assert r.c.patternMarkers == unknown.registry;
    case Unknown =>
      assert r.c.barcodeMarkers == c.barcodeMarkers;
  }

  /** One square is solved continuously exactly when its type is known and its entry was seen in the previous frame. */
  lemma SquareStepSolve(c: Controller, i: nat, m: MarkerInfo, solve: Solver)
    ensures SquareStep(c, i, m, solve).solve == Continuous <==>
      Classify(m) != Unknown && SeenBefore(c, Slot(m).0, Slot(m).1)
  {
    var unknown := TrackMarkerId(c.patternMarkers, -1, None, c.defaultMarkerWidth);
    match Classify(m)
    case Pattern =>
      var tracked := TrackMarkerId(unknown.registry, m.idPatt, None, c.defaultMarkerWidth);
      assert tracked.entry.inPrevious <==> Before(c.patternMarkers, m.idPatt);
    case Barcode =>
    case Unknown =>
  }

  /** The result of the square loop over a prefix of the detected markers. */
  datatype SquarePhaseOut = SquarePhaseOut(c: Controller, events: seq<Event>, solves: seq<Solve>, dirs: seq<SetDir>)

  /** The square loop: every detected marker in index order. */
  function SquarePhase(c: Controller, ms: seq<MarkerInfo>, solve: Solver): (r: SquarePhaseOut)
    ensures |r.events| == |ms| && |r.solves| == |ms|
    ensures r.c.nftMarkers == c.nftMarkers && r.c.defaultMarkerWidth == c.defaultMarkerWidth
  {
    if |ms| == 0 then SquarePhaseOut(c, [], [], [])
    else
      var p := SquarePhase(c, ms[..|ms| - 1], solve);
      var s := SquareStep(p.c, |ms| - 1, ms[|ms| - 1], solve);
      SquarePhaseOut(s.c, p.events + [s.event], p.solves + [s.solve], p.dirs + s.dirs)
  }

  /** Some detected marker among `ms` is filed under registry `k`, id `id`. */
  predicate Detected(ms: seq<MarkerInfo>, k: Kind, id: int)
  {
    exists j :: 0 <= j < |ms| && Slot(ms[j]) == (k, id)
  }

  /** Markers detected in a prefix are detected in the whole list; the last marker adds its own slot. */
  lemma DetectedSnoc(ms: seq<MarkerInfo>, k: Kind, id: int)
    requires |ms| > 0
    ensures Detected(ms, k, id) <==> Detected(ms[..|ms| - 1], k, id) || (k, id) == Slot(ms[|ms| - 1])
  {
    var pre := ms[..|ms| - 1];
    if Detected(ms, k, id) {
      var j :| 0 <= j < |ms| && Slot(ms[j]) == (k, id);
      if j < |pre| {
        assert pre[j] == ms[j];
      }
    }
    if Detected(pre, k, id) {
      var j :| 0 <= j < |pre| && Slot(pre[j]) == (k, id);
      assert ms[j] == pre[j];
    }
  }

  /** The square loop leaves every previous-frame flag alone. */
  lemma {:induction false} SquarePhaseBefore(c: Controller, ms: seq<MarkerInfo>, solve: Solver)
    ensures forall k: Kind, id :: SeenBefore(SquarePhase(c, ms, solve).c, k, id) <==> SeenBefore(c, k, id)
  {
    if |ms| > 0 {
      var n := |ms| - 1;
      var p := SquarePhase(c, ms[..n], solve);
      SquarePhaseBefore(c, ms[..n], solve);
      SquareStepBefore(p.c, n, ms[n], solve);
    }
  }

  /**
   * After the square loop on rotated registries, a pattern or barcode entry
   * is marked seen now exactly when some detected marker is filed under it.
   */
  lemma {:induction false} SquarePhaseFlags(c: Controller, ms: seq<MarkerInfo>, solve: Solver)
    requires forall k: Kind, id :: !SeenNow(c, k, id)
    ensures forall k: Kind, id | k != NFTKind :: SeenNow(SquarePhase(c, ms, solve).c, k, id) <==> Detected(ms, k, id)
  {
    if |ms| > 0 {
      var n := |ms| - 1;
      var pre := ms[..n];
      SquarePhaseFlags(c, pre, solve);
      var p := SquarePhase(c, pre, solve);
      SquareStepSeen(p.c, n, ms[n], solve);
      var s := SquareStep(p.c, n, ms[n], solve);
      assert SquarePhase(c, ms, solve).c == s.c;
      forall k: Kind, id | k != NFTKind
        ensures SeenNow(s.c, k, id) <==> Detected(ms, k, id)
      {
        DetectedSnoc(ms, k, id);
      }
    }
  }

  /**
   * The square loop adds exactly the slots of the detected markers, plus the
   * shared pattern slot -1 once any marker was detected.
   */
  lemma {:induction false} SquarePhaseKeys(c: Controller, ms: seq<MarkerInfo>, solve: Solver)
    ensures forall id :: id in SquarePhase(c, ms, solve).c.patternMarkers <==>
      id in c.patternMarkers || Detected(ms, PatternKind, id) || (id == -1 && |ms| > 0)
    ensures forall id :: id in SquarePhase(c, ms, solve).c.barcodeMarkers <==>
      id in c.barcodeMarkers || Detected(ms, BarcodeKind, id)
  {
    if |ms| > 0 {
      var n := |ms| - 1;
      var pre := ms[..n];
      SquarePhaseKeys(c, pre, solve);
      var p := SquarePhase(c, pre, solve);
      SquareStepKeys(p.c, n, ms[n], solve);
      var s := SquareStep(p.c, n, ms[n], solve);
      assert SquarePhase(c, ms, solve).c == s.c;
      forall id
        ensures id in s.c.patternMarkers <==> id in c.patternMarkers || Detected(ms, PatternKind, id) || id == -1
        ensures id in s.c.barcodeMarkers <==> id in c.barcodeMarkers || Detected(ms, BarcodeKind, id)
      {
        DetectedSnoc(ms, PatternKind, id);
        DetectedSnoc(ms, BarcodeKind, id);
      }
    }
  }

  /**
   * Each detected marker's pose is solved continuously exactly when its type
   * is known and its entry was seen in the previous frame.
   */
  lemma {:induction false} SquarePhaseSolves(c: Controller, ms: seq<MarkerInfo>, solve: Solver)
    ensures forall j | 0 <= j < |ms| :: SquarePhase(c, ms, solve).solves[j] == Continuous <==>
      Classify(ms[j]) != Unknown && SeenBefore(c, Slot(ms[j]).0, Slot(ms[j]).1)
  {
    if |ms| > 0 {
      var n := |ms| - 1;
      var pre := ms[..n];
      SquarePhaseSolves(c, pre, solve);
      SquarePhaseBefore(c, pre, solve);
      var p := SquarePhase(c, pre, solve);
      SquareStepSolve(p.c, n, ms[n], solve);
      var s := SquareStep(p.c, n, ms[n], solve);
      var r := SquarePhase(c, ms, solve);
      assert r.solves == p.solves + [s.solve];
      forall j | 0 <= j < |ms|
        ensures r.solves[j] == Continuous <==> Classify(ms[j]) != Unknown && SeenBefore(c, Slot(ms[j]).0, Slot(ms[j]).1)
      {
        if j < n {
          assert r.solves[j] == p.solves[j] && ms[j] == pre[j];
          assert p.solves[j] == Continuous <==>
            Classify(pre[j]) != Unknown && SeenBefore(c, Slot(pre[j]).0, Slot(pre[j]).1);
        } else {
          assert r.solves[j] == s.solve;
          var sl := Slot(ms[n]);
          assert SeenBefore(p.c, sl.0, sl.1) <==> SeenBefore(c, sl.0, sl.1);
        }
      }
    }
  }

  /** `e` is the getMarker event of detected square `j`, with its classified type and info. */
  predicate SquareEvent(e: Event, j: nat, m: MarkerInfo)
  {
    e.GetMarker? && e.index == j && e.markerType == Classify(m) && e.marker == m
  }

  /**
   * The square loop dispatches one event per detected marker, in index
   * order, carrying the marker's classified type and info.
   */
  lemma {:induction false} SquarePhaseEvents(c: Controller, ms: seq<MarkerInfo>, solve: Solver)
    ensures forall j | 0 <= j < |ms| :: SquareEvent(SquarePhase(c, ms, solve).events[j], j, ms[j])
  {
    if |ms| > 0 {
      var n := |ms| - 1;
      var pre := ms[..n];
      SquarePhaseEvents(c, pre, solve);
      var p := SquarePhase(c, pre, solve);
      var s := SquareStep(p.c, n, ms[n], solve);
      var r := SquarePhase(c, ms, solve);
      assert r.events == p.events + [s.event];
      forall j | 0 <= j < |ms|
        ensures SquareEvent(r.events[j], j, ms[j])
      {
        if j < n {
          assert r.events[j] == p.events[j] && ms[j] == pre[j];
        } else {
          assert r.events[j] == s.event;
        }
      }
    }
  }

  /** The result of the NFT loop: state, debounce, events, and whether `process` returned early. */
  datatype NftPhaseOut = NftPhaseOut(c: Controller, d: Debounce, events: seq<Event>, halted: bool)

  /**
   * The NFT loop from marker `i` on.  A found marker records its pose in its
   * entry, marks it seen and reports it; a marker lost past the window is
   * reported with the last converted pose; inside the window the loop
   * (and `process`) stops.
   */
  function NftPhase(c: Controller, d: Debounce, nft: seq<NftInfo>, i: nat, now: int): (r: NftPhaseOut)
    requires i <= |nft|
    ensures r.c.patternMarkers == c.patternMarkers && r.c.barcodeMarkers == c.barcodeMarkers
    ensures r.c.defaultMarkerWidth == c.defaultMarkerWidth
    decreases |nft| - i
  {
    if i == |nft| then NftPhaseOut(c, d, [], false)
    else
      var s := Step(d, i, nft[i].found, now);
      match s.outcome
      case Found =>
        var tracked := TrackMarkerId(c.nftMarkers, i, None, c.defaultMarkerWidth);
        var visible := tracked.entry.(matrix := nft[i].pose, inCurrent := true);
        var c' := c.(nftMarkers := tracked.registry[i := visible], lastPose := Some(nft[i].pose));
        var rest := NftPhase(c', s.state, nft, i + 1, now);
        rest.(events := [GetNFTMarker(i, nft[i])] + rest.events)
      case Lost =>
        var rest := NftPhase(c, s.state, nft, i + 1, now);
        rest.(events := [LostNFTMarker(i, nft[i], c.lastPose)] + rest.events)
      case Hold => NftPhaseOut(c, d, [], true)
      case Quiet => NftPhase(c, s.state, nft, i + 1, now)
  }

  /** The NFT loop reports only found and lost events. */
  lemma {:induction false} NftPhaseEventKinds(c: Controller, d: Debounce, nft: seq<NftInfo>, i: nat, now: int)
    requires i <= |nft|
    ensures forall e | e in NftPhase(c, d, nft, i, now).events :: e.GetNFTMarker? || e.LostNFTMarker?
    decreases |nft| - i
  {
    if i < |nft| {
      var s := Step(d, i, nft[i].found, now);
      match s.outcome
      case Found =>
        var tracked := TrackMarkerId(c.nftMarkers, i, None, c.defaultMarkerWidth);
        var visible := tracked.entry.(matrix := nft[i].pose, inCurrent := true);
        var c' := c.(nftMarkers := tracked.registry[i := visible], lastPose := Some(nft[i].pose));
        NftPhaseEventKinds(c', s.state, nft, i + 1, now);
      case Lost =>
        NftPhaseEventKinds(c, s.state, nft, i + 1, now);
      case Hold =>
      case Quiet =>
        NftPhaseEventKinds(c, s.state, nft, i + 1, now);
    }
  }

  /**
   * Within one `process` call at most one NFT marker is reported lost, and
   * only the marker the debounce state named at the start, when it is absent,
   * nothing earlier was found, and the window has passed; the lost event
   * carries the pose converted before the NFT loop.
   */
  lemma {:induction false} NftPhaseLost(c: Controller, d: Debounce, nft: seq<NftInfo>, i: nat, now: int)
    requires i <= |nft|
    ensures var r := NftPhase(c, d, nft, i, now);
      forall e | e in r.events && e.LostNFTMarker? ::
        && d.markerFound == Some(e.index) && i <= e.index < |nft|
        && !nft[e.index].found && now - d.markerFoundTime > MARKER_LOST_TIME
        && (forall j :: i <= j < e.index ==> !nft[j].found)
        && e.last == c.lastPose
    ensures var r := NftPhase(c, d, nft, i, now);
      forall a, b | 0 <= a < b < |r.events| :: !(r.events[a].LostNFTMarker? && r.events[b].LostNFTMarker?)
    decreases |nft| - i
  {
    if i < |nft| {
      var s := Step(d, i, nft[i].found, now);
      var r := NftPhase(c, d, nft, i, now);
      match s.outcome
      case Found =>
        var tracked := TrackMarkerId(c.nftMarkers, i, None, c.defaultMarkerWidth);
        var visible := tracked.entry.(matrix := nft[i].pose, inCurrent := true);
        var c' := c.(nftMarkers := tracked.registry[i := visible], lastPose := Some(nft[i].pose));
        var rest := NftPhase(c', s.state, nft, i + 1, now);
        assert r.events == [GetNFTMarker(i, nft[i])] + rest.events;
        NoLostAfterFound(c', s.state, nft, i + 1, now);
        forall a, b | 0 <= a < b < |r.events|
          ensures !(r.events[a].LostNFTMarker? && r.events[b].LostNFTMarker?)
        {
          assert r.events[b] == rest.events[b - 1];
        }
      case Lost =>
        var rest := NftPhase(c, s.state, nft, i + 1, now);
        assert r.events == [LostNFTMarker(i, nft[i], c.lastPose)] + rest.events;
        NoLostWhenCleared(c, s.state, nft, i + 1, now);
        forall a, b | 0 <= a < b < |r.events|
          ensures !(r.events[a].LostNFTMarker? && r.events[b].LostNFTMarker?)
        {
          assert r.events[b] == rest.events[b - 1];
        }
      case Hold =>
      case Quiet =>
        NftPhaseLost(c, s.state, nft, i + 1, now);
    }
  }

  /** Every found marker reported by the NFT loop was found this frame, and its entry is seen now with the engine's pose. */
  lemma {:induction false} NftPhaseFound(c: Controller, d: Debounce, nft: seq<NftInfo>, i: nat, now: int)
    requires i <= |nft|
    ensures var r := NftPhase(c, d, nft, i, now);
      forall e | e in r.events && e.GetNFTMarker? ::
        && i <= e.index < |nft| && nft[e.index].found && e.nft == nft[e.index]
        && SeenNow(r.c, NFTKind, e.index) && r.c.nftMarkers[e.index].matrix == nft[e.index].pose
    decreases |nft| - i
  {
    if i < |nft| {
      var s := Step(d, i, nft[i].found, now);
      match s.outcome
      case Found =>
        var tracked := TrackMarkerId(c.nftMarkers, i, None, c.defaultMarkerWidth);
        var visible := tracked.entry.(matrix := nft[i].pose, inCurrent := true);
        var c' := c.(nftMarkers := tracked.registry[i := visible], lastPose := Some(nft[i].pose));
        NftPhaseFound(c', s.state, nft, i + 1, now);
        NftPhaseKeepsSeen(c', s.state, nft, i + 1, now, i);
        var rest := NftPhase(c', s.state, nft, i + 1, now);
        assert NftPhase(c, d, nft, i, now).events == [GetNFTMarker(i, nft[i])] + rest.events;
      case Lost =>
        NftPhaseFound(c, s.state, nft, i + 1, now);
      case Hold =>
      case Quiet =>
        NftPhaseFound(c, s.state, nft, i + 1, now);
    }
  }

  /** Once the loop has passed a marker it found, that marker's entry stays seen with its pose. */
  lemma {:induction false} NftPhaseKeepsSeen(c: Controller, d: Debounce, nft: seq<NftInfo>, i: nat, now: int, x: int)
    requires i <= |nft|
    requires x < i
    ensures var r := NftPhase(c, d, nft, i, now);
      (x in c.nftMarkers ==> x in r.c.nftMarkers && r.c.nftMarkers[x] == c.nftMarkers[x])
    decreases |nft| - i
  {
    if i < |nft| {
      var s := Step(d, i, nft[i].found, now);
      match s.outcome
      case Found =>
        var tracked := TrackMarkerId(c.nftMarkers, i, None, c.defaultMarkerWidth);
        var visible := tracked.entry.(matrix := nft[i].pose, inCurrent := true);
        var c' := c.(nftMarkers := tracked.registry[i := visible], lastPose := Some(nft[i].pose));
        NftPhaseKeepsSeen(c', s.state, nft, i + 1, now, x);
      case Lost =>
        NftPhaseKeepsSeen(c, s.state, nft, i + 1, now, x);
      case Hold =>
      case Quiet =>
        NftPhaseKeepsSeen(c, s.state, nft, i + 1, now, x);
    }
  }

  /** After an earlier marker was found, no later marker of the same call is reported lost or holds the loop. */
  lemma {:induction false} NoLostAfterFound(c: Controller, d: Debounce, nft: seq<NftInfo>, i: nat, now: int)
    requires 0 < i <= |nft|
    requires d.markerFound.Some? && d.markerFound.value < i
    ensures forall e | e in NftPhase(c, d, nft, i, now).events :: !e.LostNFTMarker?
    ensures !NftPhase(c, d, nft, i, now).halted
    decreases |nft| - i
  {
    if i < |nft| {
      var s := Step(d, i, nft[i].found, now);
      match s.outcome
      case Found =>
        var tracked := TrackMarkerId(c.nftMarkers, i, None, c.defaultMarkerWidth);
        var visible := tracked.entry.(matrix := nft[i].pose, inCurrent := true);
        var c' := c.(nftMarkers := tracked.registry[i := visible], lastPose := Some(nft[i].pose));
        NoLostAfterFound(c', s.state, nft, i + 1, now);
      case Lost =>
      case Hold =>
      case Quiet =>
        NoLostAfterFound(c, s.state, nft, i + 1, now);
    }
  }

  /** With no marker named by the debounce state, no marker of the call is reported lost or holds the loop. */
  lemma {:induction false} NoLostWhenCleared(c: Controller, d: Debounce, nft: seq<NftInfo>, i: nat, now: int)
    requires i <= |nft|
    requires d.markerFound == None
    ensures forall e | e in NftPhase(c, d, nft, i, now).events :: !e.LostNFTMarker?
    ensures !NftPhase(c, d, nft, i, now).halted
    decreases |nft| - i
  {
    if i < |nft| {
      var s := Step(d, i, nft[i].found, now);
      match s.outcome
      case Found =>
        var tracked := TrackMarkerId(c.nftMarkers, i, None, c.defaultMarkerWidth);
        var visible := tracked.entry.(matrix := nft[i].pose, inCurrent := true);
        var c' := c.(nftMarkers := tracked.registry[i := visible], lastPose := Some(nft[i].pose));
        NoLostAfterFound(c', s.state, nft, i + 1, now);
      case Lost =>
      case Hold =>
      case Quiet =>
        NoLostWhenCleared(c, s.state, nft, i + 1, now);
    }
  }

  /**
   * The NFT loop returns early exactly when the marker named by the debounce
   * state is absent, no marker before it was found this frame, and the 200 ms
   * window has not passed.
   */
  lemma {:induction false} NftPhaseHalts(c: Controller, d: Debounce, nft: seq<NftInfo>, i: nat, now: int)
    requires i <= |nft|
    requires d.markerFound.Some? ==> d.markerFound.value >= i || d.markerFound.value < 0
    ensures NftPhase(c, d, nft, i, now).halted <==>
      && d.markerFound.Some? && i <= d.markerFound.value < |nft|
      && !nft[d.markerFound.value].found
      && now - d.markerFoundTime <= MARKER_LOST_TIME
      && (forall j :: i <= j < d.markerFound.value ==> !nft[j].found)
    decreases |nft| - i
  {
    if i < |nft| {
      var s := Step(d, i, nft[i].found, now);
      match s.outcome
      case Found =>
        var tracked := TrackMarkerId(c.nftMarkers, i, None, c.defaultMarkerWidth);
        var visible := tracked.entry.(matrix := nft[i].pose, inCurrent := true);
        var c' := c.(nftMarkers := tracked.registry[i := visible], lastPose := Some(nft[i].pose));
        NoLostAfterFound(c', s.state, nft, i + 1, now);
      case Lost =>
        NoLostWhenCleared(c, s.state, nft, i + 1, now);
      case Hold =>
      case Quiet =>
        NftPhaseHalts(c, s.state, nft, i + 1, now);
    }
  }

  /**
   * The NFT loop leaves previous-frame flags alone; an NFT entry is seen now
   * afterwards only if it was before or its marker was found this frame, and
   * when the loop ran to the end every found marker's entry is seen now.
   */
  lemma {:induction false} NftPhaseFlags(c: Controller, d: Debounce, nft: seq<NftInfo>, i: nat, now: int)
    requires i <= |nft|
    ensures forall id :: Before(NftPhase(c, d, nft, i, now).c.nftMarkers, id) <==> Before(c.nftMarkers, id)
    ensures forall id :: Now(NftPhase(c, d, nft, i, now).c.nftMarkers, id) ==>
      Now(c.nftMarkers, id) || (i <= id < |nft| && nft[id].found)
    ensures !NftPhase(c, d, nft, i, now).halted ==>
      forall id :: i <= id < |nft| && nft[id].found ==> Now(NftPhase(c, d, nft, i, now).c.nftMarkers, id)
    decreases |nft| - i
  {
    if i < |nft| {
      var s := Step(d, i, nft[i].found, now);
      match s.outcome
      case Found =>
        var tracked := TrackMarkerId(c.nftMarkers, i, None, c.defaultMarkerWidth);
        TrackKeepsFlags(c.nftMarkers, i, None, c.defaultMarkerWidth);
        var c' := c.(nftMarkers := MarkSeen(tracked.registry, i, nft[i].pose), lastPose := Some(nft[i].pose));
        assert c'.nftMarkers == tracked.registry[i := tracked.entry.(matrix := nft[i].pose, inCurrent := true)];
        NftPhaseFlags(c', s.state, nft, i + 1, now);
        NftPhaseKeepsSeen(c', s.state, nft, i + 1, now, i);
      case Lost =>
        NftPhaseFlags(c, s.state, nft, i + 1, now);
      case Hold =>
      case Quiet =>
        NftPhaseFlags(c, s.state, nft, i + 1, now);
    }
  }

  /** Whether any sub-marker of a multimarker set is visible, scanning in order as the source's loop does. */
  function AnyVisible(subs: seq<SubInfo>, j: nat): (b: bool)
    requires j <= |subs|
    ensures b <==> exists k :: j <= k < |subs| && subs[k].visible >= 0
    decreases |subs| - j
  {
    if j == |subs| then false
    else if subs[j].visible >= 0 then true
    else AnyVisible(subs, j + 1)
  }

  /** Some sub-marker of the set has a non-negative `visible` field. */
  predicate SomeSubVisible(m: MultiInfo)
  {
    exists k :: 0 <= k < |m.subs| && m.subs[k].visible >= 0
  }

  /** One `getMultiMarkerSub` event per sub-marker from index j on, each carrying that sub-marker's pose. */
  function SubEvents(id: nat, subs: seq<SubInfo>, j: nat): (es: seq<Event>)
    requires j <= |subs|
    ensures |es| == |subs| - j
    ensures forall k | 0 <= k < |es| :: es[k] == GetMultiMarkerSub(id, j + k, subs[j + k].visible, subs[j + k].pose)
    decreases |subs| - j
  {
    if j == |subs| then []
    else [GetMultiMarkerSub(id, j, subs[j].visible, subs[j].pose)] + SubEvents(id, subs, j + 1)
  }

  /**
   * The events of one multimarker set: nothing, or one `getMultiMarker` with
   * the robust pose followed by every sub-marker with its own pose.
   */
  function MultiEvents(id: nat, m: MultiInfo): seq<Event>
  {
    if AnyVisible(m.subs, 0) then [GetMultiMarker(id, m.pose)] + SubEvents(id, m.subs, 0)
    else []
  }

  /**
   * The pose last converted while handling set m: the robust pose, unless
   * the set is visible and its sub-markers' poses were converted after it.
   */
  function SetPose(m: MultiInfo): Mat3x4
  {
    if AnyVisible(m.subs, 0) then m.subs[|m.subs| - 1].pose else m.pose
  }

  /** The pose a set leaves in the controller is the pose of the last event it reports, or its robust pose when it reports none. */
  lemma SetPoseIsLastEvent(id: nat, m: MultiInfo)
    ensures var es := MultiEvents(id, m);
      && (es == [] <==> !SomeSubVisible(m))
      && (es == [] ==> SetPose(m) == m.pose)
      && (es != [] ==> Some(SetPose(m)) == EventPose(es[|es| - 1]))
  {
    var es := MultiEvents(id, m);
    if AnyVisible(m.subs, 0) {
      var subs := SubEvents(id, m.subs, 0);
      assert es == [GetMultiMarker(id, m.pose)] + subs;
      assert es[|es| - 1] == subs[|m.subs| - 1];
    }
  }

  /** The result of the multimarker loop. */
  datatype MultiPhaseOut = MultiPhaseOut(c: Controller, events: seq<Event>)

  /**
   * The multimarker loop from set `i` on: each set's robust pose is
   * converted (becoming the controller's last pose even when nothing is
   * visible), and when any sub-marker is visible the set's events are
   * reported, each sub-marker's pose being converted in turn.
   */
  function MultiPhase(c: Controller, multi: seq<MultiInfo>, i: nat): (r: MultiPhaseOut)
    requires i <= |multi|
    ensures r.c.patternMarkers == c.patternMarkers && r.c.barcodeMarkers == c.barcodeMarkers
    ensures r.c.nftMarkers == c.nftMarkers && r.c.defaultMarkerWidth == c.defaultMarkerWidth
    decreases |multi| - i
  {
    if i == |multi| then MultiPhaseOut(c, [])
    else
      var rest := MultiPhase(c.(lastPose := Some(SetPose(multi[i]))), multi, i + 1);
      rest.(events := MultiEvents(i, multi[i]) + rest.events)
  }

  /**
   * After the loop the controller's last pose is the one the last set left:
   * its last sub-marker's pose when it is visible, its robust pose otherwise.
   */
  lemma {:induction false} MultiPhaseLastPose(c: Controller, multi: seq<MultiInfo>, i: nat)
    requires i <= |multi|
    ensures i < |multi| && !SomeSubVisible(multi[|multi| - 1]) ==>
      MultiPhase(c, multi, i).c.lastPose == Some(multi[|multi| - 1].pose)
    ensures i < |multi| && SomeSubVisible(multi[|multi| - 1]) ==>
      var subs := multi[|multi| - 1].subs;
      |subs| > 0 && MultiPhase(c, multi, i).c.lastPose == Some(subs[|subs| - 1].pose)
    ensures i == |multi| ==> MultiPhase(c, multi, i).c.lastPose == c.lastPose
    decreases |multi| - i
  {
    if i < |multi| {
      MultiPhaseLastPose(c.(lastPose := Some(SetPose(multi[i]))), multi, i + 1);
    }
  }

  /**
   * The events of one set: only multimarker events, each naming that set;
   * the `getMultiMarker` event carries the robust pose, and each sub-marker
   * event a valid index with that sub-marker's `visible` field and pose.
   */
  lemma MultiEventsShape(id: nat, m: MultiInfo)
    ensures forall e | e in MultiEvents(id, m) ::
      && (e.GetMultiMarker? || e.GetMultiMarkerSub?)
      && e.multiMarkerId == id
      && (e.GetMultiMarker? ==> e.pose == m.pose)
      && (e.GetMultiMarkerSub? ==>
            e.markerIndex < |m.subs| && e.visible == m.subs[e.markerIndex].visible && e.pose == m.subs[e.markerIndex].pose)
    ensures (exists e :: e in MultiEvents(id, m) && e.GetMultiMarker?) <==>
      SomeSubVisible(m)
  {
    if AnyVisible(m.subs, 0) {
      var subs := SubEvents(id, m.subs, 0);
      assert MultiEvents(id, m) == [GetMultiMarker(id, m.pose)] + subs;
      forall e | e in subs
        ensures e.GetMultiMarkerSub? && e.multiMarkerId == id
        ensures e.markerIndex < |m.subs| && e.visible == m.subs[e.markerIndex].visible && e.pose == m.subs[e.markerIndex].pose
      {
        var k :| 0 <= k < |subs| && subs[k] == e;
      }
      assert GetMultiMarker(id, m.pose) in MultiEvents(id, m);
    }
  }

  /**
   * Every event of the multimarker loop names a set at or after `i`; a
   * `getMultiMarker` event carries that set's robust pose, and a sub-marker
   * event a valid index with that sub-marker's `visible` field and pose.
   */
  lemma {:induction false} MultiPhaseShape(c: Controller, multi: seq<MultiInfo>, i: nat)
    requires i <= |multi|
    ensures forall e | e in MultiPhase(c, multi, i).events ::
      && (e.GetMultiMarker? || e.GetMultiMarkerSub?)
      && i <= e.multiMarkerId < |multi|
      && (e.GetMultiMarker? ==> e.pose == multi[e.multiMarkerId].pose)
      && (e.GetMultiMarkerSub? ==>
            var subs := multi[e.multiMarkerId].subs;
            e.markerIndex < |subs| && e.visible == subs[e.markerIndex].visible && e.pose == subs[e.markerIndex].pose)
    decreases |multi| - i
  {
    if i < |multi| {
      var c' := c.(lastPose := Some(SetPose(multi[i])));
      MultiPhaseShape(c', multi, i + 1);
      MultiEventsShape(i, multi[i]);
      assert MultiPhase(c, multi, i).events == MultiEvents(i, multi[i]) + MultiPhase(c', multi, i + 1).events;
    }
  }

  /** Some event of `es` reports multimarker set `id`. */
  predicate Reports(es: seq<Event>, id: nat)
  {
    exists e :: e in es && e.GetMultiMarker? && e.multiMarkerId == id
  }

  lemma ReportsConcat(a: seq<Event>, b: seq<Event>, id: nat)
    ensures Reports(a + b, id) <==> Reports(a, id) || Reports(b, id)
  {
    if Reports(a, id) {
      var e :| e in a && e.GetMultiMarker? && e.multiMarkerId == id;
      assert e in a + b;
    }
    if Reports(b, id) {
      var e :| e in b && e.GetMultiMarker? && e.multiMarkerId == id;
      assert e in a + b;
    }
  }

  /** The multimarker loop's events are set `i`'s events followed by the rest of the loop's. */
  lemma MultiPhaseUnfold(c: Controller, multi: seq<MultiInfo>, i: nat)
    requires i < |multi|
    ensures MultiPhase(c, multi, i).events ==
      MultiEvents(i, multi[i]) + MultiPhase(c.(lastPose := Some(SetPose(multi[i]))), multi, i + 1).events
  {
  }

  /** Set `i`'s own events report set `id` exactly when `id` is `i` and one of its sub-markers is visible. */
  lemma MultiEventsReport(i: nat, m: MultiInfo, id: nat)
    ensures Reports(MultiEvents(i, m), id) <==>
      id == i && SomeSubVisible(m)
  {
    MultiEventsShape(i, m);
  }

  /** Set `i` or a later set is reported by the loop from `i` exactly when set `i`'s events or the rest of the loop report it. */
  lemma MultiPhaseReportsStep(c: Controller, multi: seq<MultiInfo>, i: nat, id: nat)
    requires i < |multi|
    ensures Reports(MultiPhase(c, multi, i).events, id) <==>
      Reports(MultiEvents(i, multi[i]), id) ||
      Reports(MultiPhase(c.(lastPose := Some(SetPose(multi[i]))), multi, i + 1).events, id)
  {
    MultiPhaseUnfold(c, multi, i);
    ReportsConcat(MultiEvents(i, multi[i]), MultiPhase(c.(lastPose := Some(SetPose(multi[i]))), multi, i + 1).events, id);
  }

  /** Each multimarker set at or after `i` is reported exactly when one of its sub-markers is visible. */
  lemma {:induction false} MultiPhaseReported(c: Controller, multi: seq<MultiInfo>, i: nat, id: nat)
    requires i <= |multi|
    ensures Reports(MultiPhase(c, multi, i).events, id) <==>
      (i <= id < |multi| && SomeSubVisible(multi[id]))
    decreases |multi| - i
  {
    if i < |multi| {
      MultiPhaseReported(c.(lastPose := Some(SetPose(multi[i]))), multi, i + 1, id);
      MultiEventsReport(i, multi[i], id);
      MultiPhaseReportsStep(c, multi, i, id);
    }
  }

  /** What one `process` call produces. */
  datatype ProcessOut = ProcessOut(
    c: Controller, d: Debounce, events: seq<Event>, solves: seq<Solve>, dirs: seq<SetDir>, returnedEarly: bool)

  /**
   * `process` on one frame: flag rotation, the square loop, the NFT loop
   * and, unless the NFT debounce returned early, the multimarker loop.
   */
  function ProcessFrame(c: Controller, d: Debounce, frame: Frame, solve: Solver, now: int): (r: ProcessOut)
    ensures r.c.defaultMarkerWidth == c.defaultMarkerWidth
  {
    var sq := SquarePhase(RotateAll(c), frame.markers, solve);
    var nf := NftPhase(sq.c, d, frame.nft, 0, now);
    if nf.halted then ProcessOut(nf.c, nf.d, sq.events + nf.events, sq.solves, sq.dirs, true)
    else
      var mm := MultiPhase(nf.c, frame.multi, 0);
      ProcessOut(mm.c, nf.d, sq.events + nf.events + mm.events, sq.solves, sq.dirs, false)
  }

  /** `process` hands the square and NFT phases' registries through; the multimarker phase touches none. */
  lemma ProcessFrameRegistries(c: Controller, d: Debounce, frame: Frame, solve: Solver, now: int)
    ensures var sq := SquarePhase(RotateAll(c), frame.markers, solve);
      var r := ProcessFrame(c, d, frame, solve, now);
      && r.c.patternMarkers == sq.c.patternMarkers
      && r.c.barcodeMarkers == sq.c.barcodeMarkers
      && r.c.nftMarkers == NftPhase(sq.c, d, frame.nft, 0, now).c.nftMarkers
      && r.solves == sq.solves
  {
  }

  /** After `process`, a pattern or barcode entry is seen now exactly when a detected marker is filed under it. */
  lemma ProcessFrameSeenNow(c: Controller, d: Debounce, frame: Frame, solve: Solver, now: int)
    ensures forall k: Kind, id | k != NFTKind ::
      SeenNow(ProcessFrame(c, d, frame, solve, now).c, k, id) <==> Detected(frame.markers, k, id)
  {
    SquarePhaseFlags(RotateAll(c), frame.markers, solve);
    ProcessFrameRegistries(c, d, frame, solve, now);
  }

  /** After `process`, every entry's previous-frame flag is what its current flag was before the call. */
  lemma ProcessFrameSeenBefore(c: Controller, d: Debounce, frame: Frame, solve: Solver, now: int)
    ensures forall k: Kind, id ::
      SeenBefore(ProcessFrame(c, d, frame, solve, now).c, k, id) <==> SeenNow(c, k, id)
  {
    var c1 := RotateAll(c);
    SquarePhaseBefore(c1, frame.markers, solve);
    var sq := SquarePhase(c1, frame.markers, solve);
    NftPhaseFlags(sq.c, d, frame.nft, 0, now);
    ProcessFrameRegistries(c, d, frame, solve, now);
    var r := ProcessFrame(c, d, frame, solve, now);
    forall k: Kind, id
      ensures SeenBefore(r.c, k, id) <==> SeenNow(c, k, id)
    {
      assert SeenBefore(c1, k, id) <==> SeenNow(c, k, id);
    }
  }

  /**
   * In `process`, every square's continuous solve is chosen exactly when
   * its type is known and its entry was seen in the frame before.
   */
  lemma ProcessFrameSolves(c: Controller, d: Debounce, frame: Frame, solve: Solver, now: int)
    ensures |ProcessFrame(c, d, frame, solve, now).solves| == |frame.markers|
    ensures forall j | 0 <= j < |frame.markers| ::
      ProcessFrame(c, d, frame, solve, now).solves[j] == Continuous <==>
        Classify(frame.markers[j]) != Unknown && SeenNow(c, Slot(frame.markers[j]).0, Slot(frame.markers[j]).1)
  {
    SquarePhaseSolves(RotateAll(c), frame.markers, solve);
    ProcessFrameRegistries(c, d, frame, solve, now);
  }

  /** A square seen in one frame and detected again in the next is solved continuously, unless its type is unknown. */
  lemma {:induction false} ContinuityAcrossFrames(
    c: Controller, d: Debounce, f1: Frame, f2: Frame, solve: Solver, now1: int, now2: int, j: nat)
    requires j < |f2.markers|
    ensures var r1 := ProcessFrame(c, d, f1, solve, now1);
      var r2 := ProcessFrame(r1.c, r1.d, f2, solve, now2);
      r2.solves[j] == Continuous <==>
        Classify(f2.markers[j]) != Unknown && Detected(f1.markers, Slot(f2.markers[j]).0, Slot(f2.markers[j]).1)
  {
    var r1 := ProcessFrame(c, d, f1, solve, now1);
    ProcessFrameSeenNow(c, d, f1, solve, now1);
    ProcessFrameSolves(r1.c, r1.d, f2, solve, now2);
  }

  /**
   * When the NFT debounce returns early, no multimarker event is reported
   * and the debounce state is left as the NFT loop found it; otherwise the
   * multimarker events follow the NFT events.
   */
  lemma {:induction false} ProcessEarlyReturn(c: Controller, d: Debounce, frame: Frame, solve: Solver, now: int)
    ensures var r := ProcessFrame(c, d, frame, solve, now);
      r.returnedEarly <==>
        && d.markerFound.Some? && 0 <= d.markerFound.value < |frame.nft|
        && !frame.nft[d.markerFound.value].found
        && now - d.markerFoundTime <= MARKER_LOST_TIME
        && (forall j :: 0 <= j < d.markerFound.value ==> !frame.nft[j].found)
    ensures var r := ProcessFrame(c, d, frame, solve, now);
      r.returnedEarly ==> forall e | e in r.events :: !e.GetMultiMarker? && !e.GetMultiMarkerSub?
  {
    var c1 := RotateAll(c);
    var sq := SquarePhase(c1, frame.markers, solve);
    NftPhaseHalts(sq.c, d, frame.nft, 0, now);
    NftPhaseEventKinds(sq.c, d, frame.nft, 0, now);
    SquarePhaseEvents(c1, frame.markers, solve);
    var r := ProcessFrame(c, d, frame, solve, now);
    var nf := NftPhase(sq.c, d, frame.nft, 0, now);
    if r.returnedEarly {
      forall e | e in r.events
        ensures !e.GetMultiMarker? && !e.GetMultiMarkerSub?
      {
        assert e in sq.events || e in nf.events;
        if e in sq.events {
          var j :| 0 <= j < |sq.events| && sq.events[j] == e;
          assert SquareEvent(sq.events[j], j, frame.markers[j]);
        }
      }
    }
  }

  /**
   * A whole `process(image)` call: `detectMarker` first refreshes the luma
   * buffer and copies the frame to the heap, then the rest of the call runs
   * whatever the detection status was (a non-zero status is only logged).
   * A frame longer than the heap makes the copy throw, which aborts the
   * call before any flag is rotated: the result is `None`, and the
   * controller and the debounce state stay as they were.
   */
  method ProcessImage(a: FrameArena.Arena, image: seq<byte>, engineStatus: int,
                      c: Controller, d: Debounce, frame: Frame, solve: Solver, now: int)
    returns (a': FrameArena.Arena, r: Option<ProcessOut>)
    ensures r.None? <==> a.dataHeap.Some? && |image| > |a.dataHeap.value|
    ensures r.Some? ==> r.value == ProcessFrame(c, d, frame, solve, now)
    ensures FrameArena.LumaRefreshed(a, image, a')
    ensures FrameArena.HeapWritten(a, image, a', a.dataHeap.Some? && |image| <= |a.dataHeap.value|)
  {
    var status;
    a', status := FrameArena.DetectMarker(a, image, engineStatus);
    if status.None? {
      r := None;
    } else {
      r := Some(ProcessFrame(c, d, frame, solve, now));
    }
  }

  /** Some event of `es` reports an NFT marker found. */
  predicate HasFound(es: seq<Event>)
  {
    exists e :: e in es && e.GetNFTMarker?
  }

  /** Some event of `es` reports an NFT marker lost. */
  predicate HasLost(es: seq<Event>)
  {
    exists e :: e in es && e.LostNFTMarker?
  }

  lemma HasConcat(a: seq<Event>, b: seq<Event>)
    ensures HasFound(a + b) <==> HasFound(a) || HasFound(b)
    ensures HasLost(a + b) <==> HasLost(a) || HasLost(b)
  {
    if HasFound(a + b) {
      var e :| e in a + b && e.GetNFTMarker?;
    }
    if HasLost(a + b) {
      var e :| e in a + b && e.LostNFTMarker?;
    }
    if HasFound(a) {
      var e :| e in a && e.GetNFTMarker?;
      assert e in a + b;
    }
    if HasLost(a) {
      var e :| e in a && e.LostNFTMarker?;
      assert e in a + b;
    }
    if HasFound(b) {
      var e :| e in b && e.GetNFTMarker?;
      assert e in a + b;
    }
    if HasLost(b) {
      var e :| e in b && e.LostNFTMarker?;
      assert e in a + b;
    }
  }

  /** With a single NFT marker the NFT loop is one debounce step: its state, its early return and its event. */
  lemma NftPhaseSingle(c: Controller, d: Debounce, nft: seq<NftInfo>, now: int)
    requires |nft| == 1
    ensures var r := NftPhase(c, d, nft, 0, now);
      var s := Step(d, 0, nft[0].found, now);
      && r.d == s.state
      && (r.halted <==> s.outcome == Hold)
      && (HasFound(r.events) <==> s.outcome == Found)
      && (HasLost(r.events) <==> s.outcome == Lost)
  {
    var r := NftPhase(c, d, nft, 0, now);
    var s := Step(d, 0, nft[0].found, now);
    match s.outcome
    case Found =>
      var tracked := TrackMarkerId(c.nftMarkers, 0, None, c.defaultMarkerWidth);
      var visible := tracked.entry.(matrix := nft[0].pose, inCurrent := true);
      var c' := c.(nftMarkers := tracked.registry[0 := visible], lastPose := Some(nft[0].pose));
      assert NftPhase(c', s.state, nft, 1, now).events == [];
      assert r.events == [GetNFTMarker(0, nft[0])];
      assert r.events[0] in r.events;
    case Lost =>
      assert NftPhase(c, s.state, nft, 1, now).events == [];
      assert r.events == [LostNFTMarker(0, nft[0], c.lastPose)];
      assert r.events[0] in r.events;
    case Hold =>
    case Quiet =>
  }

  /** The square loop reports no NFT event. */
  lemma SquarePhaseNoNft(c: Controller, ms: seq<MarkerInfo>, solve: Solver)
    ensures !HasFound(SquarePhase(c, ms, solve).events) && !HasLost(SquarePhase(c, ms, solve).events)
  {
    var es := SquarePhase(c, ms, solve).events;
    SquarePhaseEvents(c, ms, solve);
    forall e | e in es
      ensures e.GetMarker?
    {
      var j :| 0 <= j < |es| && es[j] == e;
      assert SquareEvent(es[j], j, ms[j]);
    }
  }

  /** The multimarker loop reports no NFT event. */
  lemma MultiPhaseNoNft(c: Controller, multi: seq<MultiInfo>)
    ensures !HasFound(MultiPhase(c, multi, 0).events) && !HasLost(MultiPhase(c, multi, 0).events)
  {
    MultiPhaseShape(c, multi, 0);
  }

  /**
   * On a frame with a single NFT marker, `process` is one step of the
   * debounce: the debounce state it leaves is the step's, it returns early
   * exactly on a Hold, and it reports the marker found or lost exactly on a
   * Found or a Lost outcome.
   */
  lemma ProcessFrameSingleNft(c: Controller, d: Debounce, frame: Frame, solve: Solver, now: int)
    requires |frame.nft| == 1
    ensures var r := ProcessFrame(c, d, frame, solve, now);
      Reported(r, d, frame.nft[0].found, now)
  {
    var sq := SquarePhase(RotateAll(c), frame.markers, solve);
    var nf := NftPhase(sq.c, d, frame.nft, 0, now);
    SquarePhaseNoNft(RotateAll(c), frame.markers, solve);
    NftPhaseSingle(sq.c, d, frame.nft, now);
    HasConcat(sq.events, nf.events);
    if !nf.halted {
      var mm := MultiPhase(nf.c, frame.multi, 0);
      MultiPhaseNoNft(nf.c, frame.multi);
      HasConcat(sq.events + nf.events, mm.events);
    }
  }

  /** `r` reports outcome `o` of the debounce: it returns early on a Hold, and reports found or lost exactly on a Found or a Lost. */
  predicate ReportsOutcome(r: ProcessOut, o: Outcome)
  {
    && (r.returnedEarly <==> o == Hold)
    && (HasFound(r.events) <==> o == Found)
    && (HasLost(r.events) <==> o == Lost)
  }

  /** `r` is what one debounce step from `d`, on a marker found or not at time `now`, says `process` does. */
  predicate Reported(r: ProcessOut, d: Debounce, found: bool, now: int)
  {
    var s := Step(d, 0, found, now);
    r.d == s.state && ReportsOutcome(r, s.outcome)
  }

  /** The controller, the debounce state and each call's result over consecutive `process` calls. */
  datatype Session = Session(c: Controller, d: Debounce, outs: seq<ProcessOut>)

  /** `process` called on each frame in turn, frame k at clock reading nows[k]. */
  function RunSession(c: Controller, d: Debounce, frames: seq<Frame>, solve: Solver, nows: seq<int>): (s: Session)
    requires |nows| == |frames|
    ensures |s.outs| == |frames|
  {
    if |frames| == 0 then Session(c, d, [])
    else
      var n := |frames| - 1;
      var p := RunSession(c, d, frames[..n], solve, nows[..n]);
      var r := ProcessFrame(p.c, p.d, frames[n], solve, nows[n]);
      Session(r.c, r.d, p.outs + [r])
  }

  /** What the debounce sees of a session whose frames each have a single NFT marker. */
  function Observations(frames: seq<Frame>, nows: seq<int>): (obs: seq<Observation>)
    requires |nows| == |frames|
    requires forall k | 0 <= k < |frames| :: |frames[k].nft| == 1
    ensures |obs| == |frames|
    ensures forall k | 0 <= k < |frames| :: obs[k] == Observation(frames[k].nft[0].found, nows[k])
  {
    if |frames| == 0 then []
    else
      var n := |frames| - 1;
      Observations(frames[..n], nows[..n]) + [Observation(frames[n].nft[n - n].found, nows[n])]
  }

  /** The last call of a session is one debounce step from the state the earlier calls left. */
  lemma SessionLast(c: Controller, d: Debounce, frames: seq<Frame>, solve: Solver, nows: seq<int>)
    requires |nows| == |frames| > 0
    requires |frames[|frames| - 1].nft| == 1
    ensures var n := |frames| - 1;
      var p := RunSession(c, d, frames[..n], solve, nows[..n]);
      var s := RunSession(c, d, frames, solve, nows);
      && s.outs[..n] == p.outs
      && s.d == s.outs[n].d
      && Reported(s.outs[n], p.d, frames[n].nft[0].found, nows[n])
  {
    var n := |frames| - 1;
    var p := RunSession(c, d, frames[..n], solve, nows[..n]);
    ProcessFrameSingleNft(p.c, p.d, frames[n], solve, nows[n]);
  }

  /**
   * Over consecutive `process` calls on frames with a single NFT marker, the
   * debounce state is that of `Run` on the marker's observations, and each
   * call reports found, reports lost or returns early exactly when `Run`'s
   * outcome for that frame is Found, Lost or Hold.  The episode lemmas about
   * `Run` are therefore statements about `process`.
   */
  lemma {:induction false} SessionIsRun(c: Controller, d: Debounce, frames: seq<Frame>, solve: Solver, nows: seq<int>)
    requires |nows| == |frames|
    requires forall k | 0 <= k < |frames| :: |frames[k].nft| == 1
    ensures var s := RunSession(c, d, frames, solve, nows);
      var t := Run(d, 0, Observations(frames, nows));
      && s.d == t.state
      && forall k | 0 <= k < |frames| :: ReportsOutcome(s.outs[k], t.outcomes[k])
  {
    if |frames| > 0 {
      var n := |frames| - 1;
      var obs := Observations(frames, nows);
      var pre := Observations(frames[..n], nows[..n]);
      assert obs[..n] == pre;
      SessionIsRun(c, d, frames[..n], solve, nows[..n]);
      SessionLast(c, d, frames, solve, nows);
      var p := RunSession(c, d, frames[..n], solve, nows[..n]);
      var s := RunSession(c, d, frames, solve, nows);
      var t := Run(d, 0, obs);
      var tp := Run(d, 0, pre);
      assert t.outcomes == tp.outcomes + [Step(tp.state, 0, obs[n].found, obs[n].now).outcome];
      forall k | 0 <= k < n
        ensures ReportsOutcome(s.outs[k], t.outcomes[k])
      {
        assert s.outs[k] == s.outs[..n][k];
      }
    }
  }
}
