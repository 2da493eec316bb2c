/**
 * Pose conversions of the binding layer: `transMatToGLMat` lays the
 * engine's 3x4 row-major pose out as a column-major 4x4 matrix, and
 * `arglCameraViewRHf` turns that into a right-handed camera view by
 * negating its second and third rows.  Both are exact index permutations
 * and sign flips.
 */
module PoseMatrix {

  /** The engine's pose: 3 rows of 4, row-major (`Float64Array(12)`). */
  type Mat3x4 = s: seq<real> | |s| == 12 witness [0.0, 0.0, 0.0, 0.0, 0.0, 0.0, 0.0, 0.0, 0.0, 0.0, 0.0, 0.0]

  /** A renderer matrix: 4x4, column-major (`Float64Array(16)`). */
  type Mat4 = s: seq<real> | |s| == 16 witness [0.0, 0.0, 0.0, 0.0, 0.0, 0.0, 0.0, 0.0, 0.0, 0.0, 0.0, 0.0, 0.0, 0.0, 0.0, 0.0]

  /** The all-zero pose a fresh `Float64Array(12)` holds. */
  const ZeroPose: Mat3x4 := [0.0, 0.0, 0.0, 0.0, 0.0, 0.0, 0.0, 0.0, 0.0, 0.0, 0.0, 0.0]

  /** Element (row, col) of a row-major 3x4 pose. */
  function PoseAt(t: Mat3x4, row: nat, col: nat): real
    requires row < 3 && col < 4
  {
    t[4 * row + col]
  }

  /** Element (row, col) of a column-major 4x4 matrix. */
  function GLAt(g: Mat4, row: nat, col: nat): real
    requires row < 4 && col < 4
  {
    g[row + 4 * col]
  }

  /** The bottom row of a homogeneous transform: 0, 0, 0, 1. */
  predicate HasAffineBottomRow(g: Mat4)
  {
    g[3] == 0.0 && g[7] == 0.0 && g[11] == 0.0 && g[15] == 1.0
  }

  /**
   * `transMatToGLMat` without a scale: the three pose rows become the first
   * three rows of the column-major matrix, and the bottom row is 0, 0, 0, 1.
   */
  function TransMatToGLMat(t: Mat3x4): (g: Mat4)
    ensures forall row: nat, col: nat | row < 3 && col < 4 :: GLAt(g, row, col) == PoseAt(t, row, col)
    ensures HasAffineBottomRow(g)
  {
    [t[0], t[4], t[8], 0.0,
     t[1], t[5], t[9], 0.0,
     t[2], t[6], t[10], 0.0,
     t[3], t[7], t[11], 1.0]
  }

  /** Reads the 3x4 pose back out of a column-major matrix, the inverse layout of TransMatToGLMat. */
  function GLMatToTransMat(g: Mat4): (t: Mat3x4)
    ensures forall row: nat, col: nat | row < 3 && col < 4 :: PoseAt(t, row, col) == GLAt(g, row, col)
  {
    [g[0], g[4], g[8], g[12],
     g[1], g[5], g[9], g[13],
     g[2], g[6], g[10], g[14]]
  }

  /**
   * `arglCameraViewRHf` without a scale: row 0 is copied, rows 1 and 2 are
   * negated, and the bottom row becomes 0, 0, 0, 1.  The result is a new
   * matrix; the input is a value and is never changed.
   */
  function ArglCameraViewRHf(g: Mat4): (h: Mat4)
    ensures forall col: nat | col < 4 :: GLAt(h, 0, col) == GLAt(g, 0, col)
    ensures forall col: nat | col < 4 :: GLAt(h, 1, col) == -GLAt(g, 1, col)
    ensures forall col: nat | col < 4 :: GLAt(h, 2, col) == -GLAt(g, 2, col)
    ensures HasAffineBottomRow(h)
  {
    [g[0], -g[1], -g[2], 0.0,
     g[4], -g[5], -g[6], 0.0,
     g[8], -g[9], -g[10], 0.0,
     g[12], -g[13], -g[14], 1.0]
  }

  /** Negates the second and third rows of a 3x4 pose (the Y and Z axes of camera space). */
  function FlipYZ(t: Mat3x4): (f: Mat3x4)
    ensures forall col: nat | col < 4 :: PoseAt(f, 0, col) == PoseAt(t, 0, col)
    ensures forall row: nat, col: nat | 1 <= row < 3 && col < 4 :: PoseAt(f, row, col) == -PoseAt(t, row, col)
  {
    [t[0], t[1], t[2], t[3],
     -t[4], -t[5], -t[6], -t[7],
     -t[8], -t[9], -t[10], -t[11]]
  }

  /** Two matrices are equal when they agree on every (row, col). */
  lemma GLExtensional(g: Mat4, h: Mat4)
    requires forall row: nat, col: nat | row < 4 && col < 4 :: GLAt(g, row, col) == GLAt(h, row, col)
    ensures g == h
  {
    forall i | 0 <= i < 16
      ensures g[i] == h[i]
    {
      assert GLAt(g, i % 4, i / 4) == GLAt(h, i % 4, i / 4);
    }
  }

  /** Two poses are equal when they agree on every (row, col). */
  lemma PoseExtensional(t: Mat3x4, u: Mat3x4)
    requires forall row: nat, col: nat | row < 3 && col < 4 :: PoseAt(t, row, col) == PoseAt(u, row, col)
    ensures t == u
  {
    forall i | 0 <= i < 12
      ensures t[i] == u[i]
    {
      assert PoseAt(t, i / 4, i % 4) == PoseAt(u, i / 4, i % 4);
    }
  }

  /** Reading the pose back out of its GL layout gives the pose. */
  lemma {:induction false} GLMatRoundTrip(t: Mat3x4)
    ensures GLMatToTransMat(TransMatToGLMat(t)) == t
  {
    PoseExtensional(GLMatToTransMat(TransMatToGLMat(t)), t);
  }

  /** Every matrix with an affine bottom row is the GL layout of exactly the pose read out of it. */
  lemma {:induction false} TransMatRoundTrip(g: Mat4)
    requires HasAffineBottomRow(g)
    ensures TransMatToGLMat(GLMatToTransMat(g)) == g
  {
    var h := TransMatToGLMat(GLMatToTransMat(g));
    forall row: nat, col: nat | row < 4 && col < 4
      ensures GLAt(h, row, col) == GLAt(g, row, col)
    {
      if row == 3 {
        assert GLAt(h, 3, col) == GLAt(g, 3, col) by {
          assert col == 0 || col == 1 || col == 2 || col == 3;
        }
      }
    }
    GLExtensional(h, g);
  }

  /** The right-handed conversion undoes itself on every matrix with an affine bottom row. */
  lemma {:induction false} RightHandedInvolution(g: Mat4)
    requires HasAffineBottomRow(g)
    ensures ArglCameraViewRHf(ArglCameraViewRHf(g)) == g
  {
    var h := ArglCameraViewRHf(ArglCameraViewRHf(g));
    forall row: nat, col: nat | row < 4 && col < 4
      ensures GLAt(h, row, col) == GLAt(g, row, col)
    {
      if row == 3 {
        assert col == 0 || col == 1 || col == 2 || col == 3;
      }
    }
    GLExtensional(h, g);
  }

  /** Applying the right-handed conversion twice to any GL pose gives back that GL pose exactly. */
  lemma {:induction false} RightHandedTwiceOnPose(t: Mat3x4)
    ensures ArglCameraViewRHf(ArglCameraViewRHf(TransMatToGLMat(t))) == TransMatToGLMat(t)
  {
    RightHandedInvolution(TransMatToGLMat(t));
  }

  /** Converting to right-handed form is the same as flipping the pose's Y and Z rows before the layout. */
  lemma {:induction false} RightHandedIsFlip(t: Mat3x4)
    ensures ArglCameraViewRHf(TransMatToGLMat(t)) == TransMatToGLMat(FlipYZ(t))
  {
    var h := ArglCameraViewRHf(TransMatToGLMat(t));
    var k := TransMatToGLMat(FlipYZ(t));
    forall row: nat, col: nat | row < 4 && col < 4
      ensures GLAt(h, row, col) == GLAt(k, row, col)
    {
      if row == 3 {
        assert col == 0 || col == 1 || col == 2 || col == 3;
      }
    }
    GLExtensional(h, k);
  }
}
