/**
 * Per-marker tracking history of the binding layer: the three registries
 * (pattern, barcode, NFT) keyed by marker id, their get-or-create access
 * (`trackPatternMarkerId`, `trackBarcodeMarkerId`, `trackNFTMarkerId`),
 * the flag rotation that starts every `process` call, marker
 * classification and the choice of pose solve.
 */
module Tracking {
  import opened Base
  import opened PoseMatrix

  /**
   * One registry entry: seen in the previous frame, seen in this frame,
   * the last pose, and the physical marker width used by the pose solve.
   */
  datatype Entry = Entry(inPrevious: bool, inCurrent: bool, matrix: Mat3x4, markerWidth: real)

  /** A registry maps a marker id to its single tracking record. */
  type Registry = map<int, Entry>

  /** The default width a controller gives new entries (`defaultMarkerWidth = 1`). */
  const DefaultMarkerWidth: real := 1.0

  /** JavaScript truthiness of an optional width: `undefined` and 0 are falsy. */
  predicate Truthy(width: Option<real>)
  {
    width.Some? && width.value != 0.0
  }

  /** The record a fresh id receives: unseen in both frames, zero pose, the given or default width. */
  function NewEntry(width: Option<real>, defaultWidth: real): Entry
  {
    Entry(false, false, ZeroPose, if Truthy(width) then width.value else defaultWidth)
  }

  /** A registry after a get-or-create, together with the entry handed back. */
  datatype Tracked = Tracked(registry: Registry, entry: Entry)

  /**
   * Get-or-create: an unseen id gets a fresh entry; a known id keeps its
   * entry, whose width is replaced only when a truthy width is passed.  No
   * other id is touched.
   */
  function TrackMarkerId(reg: Registry, id: int, width: Option<real>, defaultWidth: real): (r: Tracked)
    ensures r.registry.Keys == reg.Keys + {id}
    ensures id in r.registry && r.registry[id] == r.entry
    ensures forall k :: k in reg && k != id ==> r.registry[k] == reg[k]
    ensures id !in reg ==>
      && !r.entry.inPrevious && !r.entry.inCurrent
      && r.entry.matrix == ZeroPose
      && r.entry.markerWidth == (if Truthy(width) then width.value else defaultWidth)
    ensures id in reg ==>
      && r.entry.inPrevious == reg[id].inPrevious
      && r.entry.inCurrent == reg[id].inCurrent
      && r.entry.matrix == reg[id].matrix
      && r.entry.markerWidth == (if Truthy(width) then width.value else reg[id].markerWidth)
  {
    var obj := if id in reg then reg[id] else NewEntry(width, defaultWidth);
    var obj' := if Truthy(width) then obj.(markerWidth := width.value) else obj;
    Tracked(reg[id := obj'], obj')
  }

  /** `id` has an entry marked as seen in the current frame. */
  predicate Now(reg: Registry, id: int)
  {
    id in reg && reg[id].inCurrent
  }

  /** `id` has an entry marked as seen in the previous frame. */
  predicate Before(reg: Registry, id: int)
  {
    id in reg && reg[id].inPrevious
  }

  /** Get-or-create never changes which ids count as seen, in either frame: fresh entries are unseen. */
  lemma {:induction false} TrackKeepsFlags(reg: Registry, id: int, width: Option<real>, defaultWidth: real)
    ensures var r := TrackMarkerId(reg, id, width, defaultWidth).registry;
      forall k :: (Now(r, k) <==> Now(reg, k)) && (Before(r, k) <==> Before(reg, k))
  {
  }

  /**
   * The end of a square's or NFT marker's iteration: its entry takes the new
   * pose and is marked as seen now; the previous-frame flag and every other
   * entry stay as they were.
   */
  function MarkSeen(reg: Registry, id: int, pose: Mat3x4): (r: Registry)
    requires id in reg
    ensures r.Keys == reg.Keys
    ensures r[id].matrix == pose && r[id].markerWidth == reg[id].markerWidth
    ensures forall k :: Now(r, k) <==> Now(reg, k) || k == id
    ensures forall k :: Before(r, k) <==> Before(reg, k)
    ensures forall k :: k in reg && k != id ==> r[k] == reg[k]
  {
    reg[id := reg[id].(matrix := pose, inCurrent := true)]
  }

  /** Tracking an id a second time without a width hands back the same entry and changes nothing. */
  lemma {:induction false} TrackMarkerIdStable(reg: Registry, id: int, width: Option<real>, defaultWidth: real)
    ensures var r := TrackMarkerId(reg, id, width, defaultWidth);
            TrackMarkerId(r.registry, id, None, defaultWidth) == r
  {
    var r := TrackMarkerId(reg, id, width, defaultWidth);
    var r2 := TrackMarkerId(r.registry, id, None, defaultWidth);
    assert r2.entry == r.entry;
    assert r2.registry == r.registry;
  }

  /** Get-or-create adds at most one record: the number of records grows by one exactly for an unseen id. */
  lemma {:induction false} TrackMarkerIdSize(reg: Registry, id: int, width: Option<real>, defaultWidth: real)
    ensures var r := TrackMarkerId(reg, id, width, defaultWidth);
            |r.registry| == if id in reg then |reg| else |reg| + 1
  {
    var r := TrackMarkerId(reg, id, width, defaultWidth);
    if id in reg {
      assert r.registry.Keys == reg.Keys;
    } else {
      assert r.registry.Keys == reg.Keys + {id};
      assert |reg.Keys + {id}| == |reg.Keys| + 1;
    }
  }

  /**
   * The rotation at the start of `process`: every entry's `inPrevious`
   * takes the old `inCurrent`, and `inCurrent` is cleared.  Keys, poses and
   * widths stay as they were.
   */
  function RotateFlags(reg: Registry): (r: Registry)
    ensures r.Keys == reg.Keys
    ensures forall k :: k in r ==>
      && r[k].inPrevious == reg[k].inCurrent
      && !r[k].inCurrent
      && r[k].matrix == reg[k].matrix
      && r[k].markerWidth == reg[k].markerWidth
  {
    map k | k in reg :: reg[k].(inPrevious := reg[k].inCurrent, inCurrent := false)
  }

  /** Two rotations with no sighting in between leave no entry marked as seen in either frame. */
  lemma {:induction false} RotateTwiceForgets(reg: Registry)
    ensures forall k :: k in RotateFlags(RotateFlags(reg)) ==>
      !RotateFlags(RotateFlags(reg))[k].inPrevious && !RotateFlags(RotateFlags(reg))[k].inCurrent
  {
    var once := RotateFlags(reg);
    var twice := RotateFlags(once);
    forall k | k in twice
      ensures !twice[k].inPrevious && !twice[k].inCurrent
    {
      assert twice[k].inPrevious == once[k].inCurrent;
    }
  }

  /** What the engine reports for one detected square: ids and directions in both namespaces. */
  datatype MarkerInfo = MarkerInfo(id: int, idPatt: int, idMatrix: int, dir: int, dirPatt: int, dirMatrix: int)

  /** The marker types the binding layer distinguishes. */
  datatype MarkerType = Pattern | Barcode | Unknown

  /**
   * A square is a pattern marker when it has a pattern id and either its
   * id is the pattern id or it has no matrix id; otherwise it is a barcode
   * marker when it has a matrix id; otherwise it is unknown.
   */
  function Classify(m: MarkerInfo): (t: MarkerType)
    ensures t == Pattern <==> m.idPatt > -1 && (m.id == m.idPatt || m.idMatrix == -1)
    ensures t == Barcode <==> !(m.idPatt > -1 && (m.id == m.idPatt || m.idMatrix == -1)) && m.idMatrix > -1
    ensures t == Unknown <==> !(m.idPatt > -1 && (m.id == m.idPatt || m.idMatrix == -1)) && m.idMatrix <= -1
  {
    if m.idPatt > -1 && (m.id == m.idPatt || m.idMatrix == -1) then Pattern
    else if m.idMatrix > -1 then Barcode
    else Unknown
  }

  /** Which registry a record lives in. */
  datatype Kind = PatternKind | BarcodeKind | NFTKind

  /** The registry slot a detected square is filed under: unknown squares share pattern slot -1. */
  function Slot(m: MarkerInfo): (s: (Kind, int))
    ensures Classify(m) == Pattern ==> s == (PatternKind, m.idPatt) && m.idPatt >= 0
    ensures Classify(m) == Barcode ==> s == (BarcodeKind, m.idMatrix) && m.idMatrix >= 0
    ensures Classify(m) == Unknown ==> s == (PatternKind, -1)
  {
    match Classify(m)
    case Pattern => (PatternKind, m.idPatt)
    case Barcode => (BarcodeKind, m.idMatrix)
    case Unknown => (PatternKind, -1)
  }

  /**
   * Two squares are filed under one registry entry only when they have the
   * same type: a pattern or barcode id is never negative, so no known marker
   * shares the pattern entry -1 the unknown squares use, and a known entry
   * is shared only by squares with the same id in that namespace.
   */
  lemma SlotsSeparateTypes(m1: MarkerInfo, m2: MarkerInfo)
    requires Slot(m1) == Slot(m2)
    ensures Classify(m1) == Classify(m2)
    ensures Classify(m1) == Pattern ==> m1.idPatt == m2.idPatt
    ensures Classify(m1) == Barcode ==> m1.idMatrix == m2.idMatrix
  {
  }

  /** Absolute solve (`getTransMatSquare`) or solve seeded by the last pose (`getTransMatSquareCont`). */
  datatype Solve = Absolute | Continuous

  /** The continuous solve is used exactly for a known marker type whose entry was seen last frame. */
  function ChooseSolve(t: MarkerType, e: Entry): (s: Solve)
    ensures s == Continuous <==> t != Unknown && e.inPrevious
  {
    if t != Unknown && e.inPrevious then Continuous else Absolute
  }
}
