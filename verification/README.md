# Pincher: the pinch-zoom core in Dafny

Pincher is an iOS view that lets one or two fingers pan, zoom and rotate an
image. This project models its core over exact reals:

- **The two-touch slot state machine of `PincherView`.**
  - The view keeps at most two touches.
  - Each occupied slot holds a reference point in image coordinates and a live point in view coordinates.
  - `touchesBegan` fills free slots, `touchesMoved` moves live points and `touchesEnded` clears slots.
  - Whenever the set of touches changes, the view solves a 4x4 linear system for its anchors and caches the inverse as `solutionMatrix`.
  - On every move, the cached inverse times the stacked live points gives `(U, V, tx, ty)`. These define the similarity `[U V -V U tx ty]`, which becomes `imageTransform`.
  - `backTransform` is always refreshed to its inverse.
  - With one finger down, a synthetic second anchor sits at the finger offset by (10, 10).
- **`HXMatrix`.** A row-major dense matrix with subscript access, conformable multiplication and square inversion.
  - The BLAS product is specified by the dot-product definition, with `alpha = beta = 1` over a zero-filled result.
  - The LAPACK inverse is specified by `M * M⁻¹ = I = M⁻¹ * M`.
- **The `CGRect` extensions.**
  - The nine anchor operators, aspect ratio and orientation.
  - The size and square initialisers, centring and scaling.
  - The aspect-fit (`scaleIn`) and aspect-fill (`scaleAround`) factors and their centred rectangles.

CoreGraphics values are modelled as follows.

- **Division.** Dividing by zero is modelled with IEEE outcomes: ±infinity, or NaN for 0/0. NaN is unordered in comparisons.
- **`CGRect` accessors.** `width`, `height`, `minX`, `midX` and `maxX` read the standardised rectangle, as CoreGraphics does. A rectangle stored with a negative size therefore has absolute width and height.
- **`scale(_:)`.** It keeps the stored origin and stores the standardised size times the factor. So `scale(1)` is the identity only when the stored size is not negative (`RectExtensions.ScaleOne`).

Modules:

| file | module | contents |
|---|---|---|
| wrappers.dfy | Wrappers | `Option` |
| sums.dfy | Sums | finite sums `f(0) + ... + f(n-1)` and their algebra |
| hxmatrix.dfy | HXMatrix | the matrix, subscripts, product, identity, associativity, inverse |
| products4.dfy | Products4 | entry-by-entry expansion of products with four columns |
| quotients.dfy | Quotients | floating-point division outcomes and comparisons |
| geometry.dfy | Geometry | points, sizes, rectangles and their standardised extents |
| rectextensions.dfy | RectExtensions | the `CGRect` extensions |
| affine.dfy | Affine | `CGAffineTransform`: apply, identity, inversion |
| solver.dfy | Solver | the similarity system, its closed-form inverse, the transform |
| session.dfy | PincherView | the view state and its three touch handlers |
| invariant.dfy | ViewInvariant | the invariant between events and its preservation |

The system solved for reference points `q1 = (x1, y1)` and `q2 = (x2, y2)` has rows `(x, -y, 1, 0)` and `(y, x, 0, 1)` for each point. Its determinant is `(x2 - x1)² + (y2 - y1)²`. `Solver.SolveSystem` gives its inverse in closed form when the points differ, and no solution when they coincide. The system is singular in exactly that case.

The central results:

- **Round trip.** `Solver.PinchTransform`: the transform built from the solution maps each anchor to its target. It is nonsingular when the targets differ.
- **Uniqueness.** `Solver.TransformUnique`: it is the only shear-free transform that does so.
- **Invariant.** `ViewInvariant.Consistent` holds initially and after every handler. It says:
  - `backTransform` is the inverse of a nonsingular, shear-free `imageTransform`;
  - every slot's reference point maps to its live point;
  - the cached solution is the one a recompute would give.

## Model

| member | source | states |
|---|---|---|
| PincherView.PlaceAll | Pincher/PincherView.swift:55-67 | A batch of landing touches goes, in order, to the free slots. Slot 1 takes the first touch if free. Slot 2 takes the next one, or the first if slot 1 was taken. Extra touches are ignored, occupied slots are never overwritten, and the transforms and solution are untouched. |
| PincherView.SlotCeiling | Pincher/PincherView.swift:55-67 | After a batch, the number of occupied slots is the previous count plus the batch size, capped at two. |
| PincherView.Targets | Pincher/PincherView.swift:84-87 | A move has targets exactly when a finger is down. The first is the live point of slot 1 if occupied, else of slot 2. With both fingers down the second is slot 2's live point; with one, it is the first offset by (10, 10). |
| PincherView.Anchors | Pincher/PincherView.swift:152-163 | The anchors exist exactly when the targets do. The first is the reference point of slot 1 if occupied, else of slot 2. With both fingers down the second is slot 2's reference point; with one, it is the second target pulled back through `backTransform`. |
| PincherView.ComputeSolution | Pincher/PincherView.swift:152-163 | No solution without a touch. Otherwise there is a solution exactly when the two anchors differ, and it is the two-sided inverse of their system. |
| PincherView.TouchesBegan | Pincher/PincherView.swift:54-69 | The slots are those of placing the whole batch. The transforms are unchanged. The solution is recomputed once, over the resulting slots. |
| PincherView.LastLocation | Pincher/PincherView.swift:72-79 | The live point a batch leaves for a touch: a location the batch reports for it, or the old point if the batch never names it. |
| PincherView.UpdateAll | Pincher/PincherView.swift:72-79 | A move batch changes only live points. Each slot's live point is the batch's last location for its touch. Occupancy, touches, reference points, transforms and solution stay. |
| PincherView.TouchesMoved | Pincher/PincherView.swift:71-88 | The live points follow the batch and the cached solution is kept. With no finger down the view is unchanged. Otherwise the new image transform has no shear and `backTransform` becomes its inverse. |
| PincherView.ClearAll | Pincher/PincherView.swift:93-103 | An ending batch empties exactly the slots whose touch it names. The other slot, the transforms and the solution stay. |
| PincherView.TouchesEnded | Pincher/PincherView.swift:92-105 | The slots are those of clearing the batch. The transforms are unchanged. The solution is recomputed over what remains. |
| ViewInvariant.InitialConsistent | Pincher/PincherView.swift:40-46 | The freshly initialised view satisfies the invariant: no touches, identity transforms, no solution. |
| ViewInvariant.LandedAnchored | Pincher/PincherView.swift:56-57 | A landing touch's reference point is its location pulled back through `backTransform`. So `imageTransform` carries it back to the location. |
| ViewInvariant.AnchorsMatchTargets | Pincher/PincherView.swift:152-163 | In a consistent view, the anchors exist exactly when the targets do, and they are distinct. The image transform already maps them to the targets, including the synthetic one-finger anchor. A solution is cached exactly when a finger is down. |
| ViewInvariant.BeganConsistent | Pincher/PincherView.swift:54-69 | `touchesBegan` preserves the invariant when the fingers down afterwards are at different places. |
| ViewInvariant.EndedConsistent | Pincher/PincherView.swift:92-105 | `touchesEnded` preserves the invariant. |
| ViewInvariant.MovedImage | Pincher/PincherView.swift:84-88 | After a move, the targets are read from the updated live points. The image is the transform computed from the cached solution and those targets, with `backTransform` its inverse. With no target, the view is unchanged. |
| ViewInvariant.MovedKeepsAnchors | Pincher/PincherView.swift:84-88 | A move leaves the anchors unchanged, and the new image transform maps each anchor to its new target. |
| ViewInvariant.MovedTransforms | Pincher/PincherView.swift:84-88 | After a move from a consistent view with the fingers apart, `backTransform` is the inverse of a nonsingular, shear-free image transform. |
| ViewInvariant.MovedAnchored | Pincher/PincherView.swift:71-88 | After a move, every slot's reference point maps to its new live point. |
| ViewInvariant.MoveInPlace | Pincher/PincherView.swift:71-88 | In a consistent view, a move that leaves every live point in place changes nothing: the transform recomputed from the cached solution is the one the view already has. |
| ViewInvariant.MovedConsistent | Pincher/PincherView.swift:71-88 | `touchesMoved` preserves the invariant when the fingers stay apart. |
| ViewInvariant.OneFingerPans | Pincher/PincherView.swift:86-87 | With one finger down, a move only pans: the new image transform is the old one followed by the finger's displacement. |
| Solver.SpreadSign | Pincher/PincherView.swift:170-175 | The determinant of the system is never negative, and is positive exactly when the reference points differ. |
| Solver.ClosedFormInverts | Pincher/PincherView.swift:170-176 | The closed-form entries are a two-sided inverse of the system. |
| Solver.SolveSystem | Pincher/PincherView.swift:165-177 | A solution exists exactly when the reference points differ. It is then a two-sided inverse of the system. |
| Solver.CoincidentSingular | Pincher/PincherView.swift:170-176 | With coincident reference points the system has no inverse. |
| Solver.SystemInvertible | Pincher/PincherView.swift:165-177 | The system is invertible exactly when the points differ. The solution is then the system's unique inverse. |
| Solver.SystemDeterminant | Pincher/PincherView.swift:170-175 | The determinant of the system is `(x2 - x1)² + (y2 - y1)²`. |
| Solver.ComputeTransform | Pincher/PincherView.swift:179-203 | Without a solution the transform is the identity. It never shears (`a = d`, `c = -b`). |
| Solver.FromColumn | Pincher/PincherView.swift:192-200 | The transform read off a parameter column `(U, V, tx, ty)` has no shear. |
| Solver.Parameters | Pincher/PincherView.swift:192-200 | Every shear-free transform is read off exactly one parameter column: `FromColumn(Parameters(t)) == t`. |
| Solver.SystemApplied | Pincher/PincherView.swift:170-175 | The system times a parameter column stacks the images of the two reference points under that column's transform. |
| Solver.RightHandSideInjective | Pincher/PincherView.swift:184-189 | If the stacked images equal the stacked live points, the transform maps each reference point to its live point. |
| Solver.SolutionSolves | Pincher/PincherView.swift:190 | Multiplying an inverse into a right-hand side yields a column that the system maps back to that right-hand side. |
| Solver.SolutionUnique | Pincher/PincherView.swift:190 | Any column the system maps to the right-hand side is the inverse times it. |
| Solver.ComputeFromColumn | Pincher/PincherView.swift:184-200 | The computed transform is the one read off `solution ⋅ B`. |
| Solver.TransformRoundTrip | Pincher/PincherView.swift:165-203 | When the solution inverts the system for `q1` and `q2`, the computed transform maps `q1` to `q1'` and `q2` to `q2'`. |
| Solver.TransformUnique | Pincher/PincherView.swift:179-203 | Any shear-free transform mapping `q1` to `q1'` and `q2` to `q2'` is the computed one. |
| Solver.SeparatingNonsingular | Pincher/PincherView.swift:198-200 | A shear-free transform that keeps two points apart is nonsingular. |
| Solver.PinchTransform | Pincher/PincherView.swift:165-203 | For distinct reference points there is a solution, and the transform from it maps `q1` to `q1'` and `q2` to `q2'`. It is nonsingular when `q1' != q2'`. |
| HXMatrix.Create | Pincher/HXMatrix.swift:25-29 | The initialiser stores rows, columns and values unchanged. |
| HXMatrix.Zeros | Pincher/HXMatrix.swift:31-33 | The convenience initialiser yields a rows x columns matrix whose entries are all zero. |
| HXMatrix.CreateGet | Pincher/HXMatrix.swift:35-39 | Entry (i, j) of a created matrix is `values[i * columns + j]`, an index inside the values. |
| HXMatrix.GetInRow | Pincher/HXMatrix.swift:35-39 | A valid subscript reads the column-th entry of the row-th block of `columns` grid entries (row-major layout). |
| HXMatrix.OffsetBound | Pincher/HXMatrix.swift:59-61 | A valid (row, column) addresses a grid offset below `rows * columns`. |
| HXMatrix.OffsetInGrid | Pincher/HXMatrix.swift:35-43 | The offset a valid subscript addresses lies inside the grid. |
| HXMatrix.OffsetInjective | Pincher/HXMatrix.swift:38-42 | Distinct valid subscripts address distinct grid offsets. |
| HXMatrix.FlatIndex | Pincher/HXMatrix.swift:38 | A grid offset decodes back to its row (quotient) and column (remainder). |
| HXMatrix.Set | Pincher/HXMatrix.swift:40-43 | A subscript write changes exactly the addressed entry. Dimensions and every other entry stay. |
| HXMatrix.SetSameValue | Pincher/HXMatrix.swift:40-43 | Writing back the value already stored leaves the matrix unchanged. |
| HXMatrix.Gemm | Pincher/HXMatrix.swift:78-96 | Row-major, untransposed GEMM: entry (i, j) is `alpha` times the dot product of row i and column j, plus `beta` times the entry of C. |
| HXMatrix.Multiply | Pincher/HXMatrix.swift:51-55 | The product has the left operand's rows and the right operand's columns. Each entry is the dot product of row i and column j, with no extra term from `beta = 1`. |
| HXMatrix.Dot | Pincher/HXMatrix.swift:99-101 | The operator `⋅` is `multiply(matrix:)`. |
| HXMatrix.MultiplyIdentityLeft | Pincher/HXMatrix.swift:51-55 | The identity is a left unit of the product. |
| HXMatrix.MultiplyIdentityRight | Pincher/HXMatrix.swift:51-55 | The identity is a right unit of the product. |
| HXMatrix.MultiplyAssociative | Pincher/HXMatrix.swift:51-55 | The product is associative. |
| HXMatrix.InverseUnique | Pincher/HXMatrix.swift:46-49 | A matrix has at most one two-sided inverse. |
| HXMatrix.Inverse | Pincher/HXMatrix.swift:46-49 | The inverse of a square, nonsingular matrix has the same dimensions, and its product with the matrix is the identity on both sides. |
| HXMatrix.InverseOf | Pincher/HXMatrix.swift:46-49 | Any two-sided inverse is the one `inverse()` returns. |
| HXMatrix.InverseInvolutive | Pincher/HXMatrix.swift:46-49 | Inverting twice gives the matrix back. |
| HXMatrix.InverseIdentity | Pincher/HXMatrix.swift:46-49 | The identity is its own inverse. |
| Products4.ProductIdentity4 | Pincher/HXMatrix.swift:51-55 | Two 4x4 grids whose row-by-column sums are the Kronecker delta multiply to the identity. |
| Affine.Apply | Pincher/PincherView.swift:57 | `applying(_:)` with the identity moves no point, and any transform sends the origin to its translation `(tx, ty)`. |
| Affine.Inverted | Pincher/PincherView.swift:33 | `inverted()` returns a singular transform unchanged. |
| Affine.InvertedDet | Pincher/PincherView.swift:33 | The inverse of a nonsingular transform is nonsingular, with the reciprocal determinant. |
| Affine.InvertedRoundTrip | Pincher/PincherView.swift:33 | `backTransform` undoes `imageTransform` on every point, in both orders, when the latter is nonsingular. |
| Affine.InvertedInvolutive | Pincher/PincherView.swift:33 | Inverting twice gives back every transform. |
| Affine.InvertedIdentity | Pincher/PincherView.swift:44-45 | The identity is its own inverse, so the initial `backTransform` is the inverse of the initial `imageTransform`. |
| Affine.ApplyInjective | Pincher/PincherView.swift:57 | A nonsingular transform sends distinct points to distinct points. |
| Quotients.Divide | Pincher/CGRectExtensions.swift:40 | Division by a non-negative divisor is finite exactly when the divisor is non-zero, and then it is the quotient. It is NaN exactly for 0/0, and otherwise an infinity with the dividend's sign. |
| Quotients.FiniteComparisons | Pincher/CGRectExtensions.swift:41-43 | On finite values `<`, `>` and `==` are the comparisons of reals. |
| Quotients.UndefinedUnordered | Pincher/CGRectExtensions.swift:41-43 | No comparison with NaN holds. |
| Quotients.Trichotomy | Pincher/CGRectExtensions.swift:41-43 | Between two non-NaN values exactly one of `<`, `==` and `>` holds. |
| RectExtensions.TopLeft | Pincher/CGRectExtensions.swift:28 | `┌` lies half a width left of and half a height above the centre. |
| RectExtensions.TopRight | Pincher/CGRectExtensions.swift:29 | `┐` lies half a width right of and half a height above the centre. |
| RectExtensions.BottomLeft | Pincher/CGRectExtensions.swift:30 | `└` lies half a width left of and half a height below the centre. |
| RectExtensions.BottomRight | Pincher/CGRectExtensions.swift:31 | `┘` lies half a width right of and half a height below the centre. |
| RectExtensions.MidLeft | Pincher/CGRectExtensions.swift:33 | `├` lies half a width left of the centre, at its height. |
| RectExtensions.MidRight | Pincher/CGRectExtensions.swift:34 | `┤` lies half a width right of the centre, at its height. |
| RectExtensions.TopMid | Pincher/CGRectExtensions.swift:35 | `┬` lies half a height above the centre, at its x. |
| RectExtensions.BottomMid | Pincher/CGRectExtensions.swift:36 | `┴` lies half a height below the centre, at its x. |
| RectExtensions.Center | Pincher/CGRectExtensions.swift:38 | `┼` is equidistant from the left and right edges and from the top and bottom edges. |
| RectExtensions.CornersAreRawCorners | Pincher/CGRectExtensions.swift:28-31 | The four corner operators give the four corners of the stored rectangle, whatever the signs of its size. |
| RectExtensions.AnchorMidpoints | Pincher/CGRectExtensions.swift:28-38 | Each edge operator is the midpoint of its two corners. `┼` is the midpoint of both diagonals and of both pairs of opposite edge midpoints. |
| RectExtensions.AnchorsInside | Pincher/CGRectExtensions.swift:28-38 | All nine anchor points lie in the rectangle. The top edge spans the width and the left edge the height. |
| RectExtensions.Aspect | Pincher/CGRectExtensions.swift:40 | The aspect is finite exactly for a non-zero height, and then aspect times height is the width. It is NaN exactly for a 0 x 0 rectangle and never negative. |
| RectExtensions.AspectValue | Pincher/CGRectExtensions.swift:40 | For a positive height the aspect is width / height. |
| RectExtensions.Orientation | Pincher/CGRectExtensions.swift:40-43 | For a positive height, portrait, landscape and square mean width < height, width > height and width == height. A zero height is landscape exactly for a positive width. At most one orientation holds, and one holds unless the rectangle is 0 x 0. |
| RectExtensions.AspectAgainstOne | Pincher/CGRectExtensions.swift:40-43 | Comparing the aspect with 1 compares width with height, for every rectangle. Equality with 1 also needs a positive height. |
| RectExtensions.IsPortrait | Pincher/CGRectExtensions.swift:41 | `isPortrait` holds exactly when width < height. |
| RectExtensions.IsLandscape | Pincher/CGRectExtensions.swift:42 | `isLandscape` holds exactly when width > height. |
| RectExtensions.IsSquare | Pincher/CGRectExtensions.swift:43 | `isSquare` holds exactly when width == height and the height is positive. |
| RectExtensions.FromSize | Pincher/CGRectExtensions.swift:45 | `init(size:)` stores the size at the origin (0, 0), whatever its signs. Width and height are the absolute sizes. |
| RectExtensions.FromSizeCenter | Pincher/CGRectExtensions.swift:45 | The rectangle built from a size is centred on half that size, whatever its signs. |
| RectExtensions.FromSizeCenteredOn | Pincher/CGRectExtensions.swift:46 | `init(size:centeredOn:)` keeps the size (standardised) and is centred on p. |
| RectExtensions.SquareCenteredOn | Pincher/CGRectExtensions.swift:47 | `init(square:centeredOn:)` is `|s|` by `|s|`, centred on p, and square for `s != 0`. |
| RectExtensions.SquareIsSizeCenteredOn | Pincher/CGRectExtensions.swift:46-47 | For `s >= 0`, the square initialiser agrees with the size initialiser on an s x s size. |
| RectExtensions.CenterOnPoint | Pincher/CGRectExtensions.swift:49 | `centerOn(point:)` keeps width and height, and the result's centre is p. |
| RectExtensions.CenterOnTwice | Pincher/CGRectExtensions.swift:49 | Centring twice is centring once on the last point. |
| RectExtensions.CenterOnRect | Pincher/CGRectExtensions.swift:50 | `centerOn(rect:)` keeps width and height and puts the centre on `┼r`. |
| RectExtensions.Scale | Pincher/CGRectExtensions.swift:51 | `scale(s)` keeps the origin and, for `s >= 0`, multiplies width and height by s. |
| RectExtensions.ScaleOne | Pincher/CGRectExtensions.swift:51 | Scaling by 1 changes nothing when the stored size is not negative. |
| RectExtensions.ScaleCompose | Pincher/CGRectExtensions.swift:51 | Scaling by s >= 0 and then by t is scaling by s * t. |
| RectExtensions.ScaleKeepsAspect | Pincher/CGRectExtensions.swift:51 | Scaling by a positive factor keeps the aspect. |
| RectExtensions.ScaleAround | Pincher/CGRectExtensions.swift:52 | A finite fill factor is non-negative and maps self's width onto r's width or self's height onto r's height. It is finite for positive sizes, and not finite for a 0 x 0 self. |
| RectExtensions.ScaleIn | Pincher/CGRectExtensions.swift:54 | A finite fit factor is non-negative and maps self's width onto r's width or self's height onto r's height. It is finite for positive sizes, and not finite for a 0 x 0 self. |
| RectExtensions.AspectOrder | Pincher/CGRectExtensions.swift:52 | For positive sizes, `r.aspect <= self.aspect` is the cross-multiplied comparison of widths and heights. |
| RectExtensions.FitFactor | Pincher/CGRectExtensions.swift:54 | The factor of the axis the aspects select is positive, fits, and is tight on one axis. No larger factor fits. |
| RectExtensions.FillFactor | Pincher/CGRectExtensions.swift:52 | The factor of the axis the aspects select is positive, covers, and is tight on one axis. No smaller factor covers. |
| RectExtensions.ScaleInFactor | Pincher/CGRectExtensions.swift:54 | For positive sizes `scaleIn` is finite and is the width ratio when `r` is no wider in aspect, else the height ratio. |
| RectExtensions.ScaleAroundFactor | Pincher/CGRectExtensions.swift:52 | For positive sizes `scaleAround` is finite and is the height ratio when `r` is no wider in aspect, else the width ratio. |
| RectExtensions.ScaleInFits | Pincher/CGRectExtensions.swift:54 | Aspect fit: for positive sizes the factor s is positive and `width * s <= r.width`, `height * s <= r.height`. One of the two is an equality, and s is the largest factor that fits. |
| RectExtensions.ScaleAroundCovers | Pincher/CGRectExtensions.swift:52 | Aspect fill: for positive sizes the factor s is positive and `width * s >= r.width`, `height * s >= r.height`. One of the two is an equality, and s is the smallest factor that covers. |
| RectExtensions.CenteredNest | Pincher/CGRectExtensions.swift:50 | Two rectangles with the same centre nest when one is no wider and no taller. |
| RectExtensions.ScaledAndCentered | Pincher/CGRectExtensions.swift:53-55 | Scaling by a positive factor and centring on `r` gives centre `┼r`, scaled sizes and the same aspect. The result is inside `r` when the factor fits and around `r` when it covers. |
| RectExtensions.ScaledCentredOn | Pincher/CGRectExtensions.swift:53-55 | Scaling by `s >= 0` and centring on `r` puts the centre on `┼r` and multiplies width and height by s. |
| RectExtensions.ScaleAndCenterAround | Pincher/CGRectExtensions.swift:53 | There is a result exactly when the fill factor is finite. It is centred on `┼r` with width and height multiplied by that factor. |
| RectExtensions.ScaleAndCenterIn | Pincher/CGRectExtensions.swift:55 | There is a result exactly when the fit factor is finite. It is centred on `┼r` with width and height multiplied by that factor. |
| RectExtensions.ScaleAndCenterInFits | Pincher/CGRectExtensions.swift:55 | For positive sizes, `scaleAndCenterIn(rect: r)` is centred on `┼r` and lies inside `r`. It matches `r` on one axis and keeps the aspect. |
| RectExtensions.ScaleAndCenterAroundCovers | Pincher/CGRectExtensions.swift:53 | For positive sizes, `scaleAndCenterAround(rect: r)` is centred on `┼r` and contains `r`. It matches `r` on one axis and keeps the aspect. |
| RectExtensions.DegenerateHasNoScale | Pincher/CGRectExtensions.swift:52-55 | A 0 x 0 rectangle has no finite fit or fill factor for a rectangle of positive size. |

## Left out

- Floating point. `Double` and `CGFloat` rounding is not modelled: coordinates, transform and matrix entries are reals. Division by zero keeps its IEEE outcome in `Quotients`.
- UIKit and Core Animation glue is not modelled, because it is side effects on the display:
  - the `bounds` observer (Pincher/PincherView.swift:10-17);
  - `_reset`, `_initialTransform` and `_adjustScaleForBoundsChange` (Pincher/PincherView.swift:109-121, Pincher/PincherView.swift:132-150);
  - the layer update in the `imageTransform` observer (Pincher/PincherView.swift:34);
  - the `CATransaction` bracket (Pincher/PincherView.swift:81-82, 89);
  - the image and layer fields.

  Their scale arithmetic is what the rectangle helpers model.
- Viewport normalisation (Pincher/PincherView.swift:123-130). Incoming locations are taken as already centre-normalised view coordinates.
- ViewController.swift is not part of this model. It only wires the view to an image.
- Sets of touches. A delivered `Set<UITouch>` is a sequence, which stands for one iteration order. `UITouch` is an identity (`Touch(id)`).
- The LAPACK and BLAS bodies (Pincher/HXMatrix.swift:63-96) are replaced by specifications:
  - `HXMatrix.Inverse` is ghost, specified by `M * M⁻¹ = I = M⁻¹ * M`;
  - the product is the dot-product definition.
- Solver.SolveSystem: coincident reference points are handled differently from the source.
  - **Source:** `A.inverse()` has no singularity check, and LAPACK's `INFO` is ignored. It caches whatever `dgetri_` leaves for coincident points.
  - **Model:** it caches no solution. A later move then falls into the nil branch of `_computeTransform` (Pincher/PincherView.swift:180-182) and yields the identity.
  - The invariant's preservation lemmas exclude this case through `LivesApart`.
  - For distinct points the model computes the same inverse.
- HXMatrix.Create requires `|values| == rows * columns`. The Swift initialiser does not check this, but every other operation relies on it.
- HXMatrix.Inverse requires a square, invertible matrix. The Swift `inverse()` only asserts squareness. For a singular matrix, LAPACK's output is not specified.
- RectExtensions.ScaleAndCenterIn and RectExtensions.ScaleAndCenterAround return `None` where the factor is infinite or NaN. CoreGraphics would build a rectangle of non-finite numbers there.
- RectExtensions.Scale states widths and heights only for `s >= 0`. For a negative factor the stored size becomes negative, and the standardised width is `|width * s|`.
- PincherView.LastLocation states that the result is a location the batch reports for the touch, not which one. `UpdateAll` applies the batch in order, so the last report wins.
- PincherView.ClearAll states slot 2's closed form only when the two slots hold different touches. A delivered `Set<UITouch>` never repeats a touch, so the source never fills both slots with one touch. The sequence model can (`TouchesBegan(v, [t, t])` on an idle view), and this clause excludes that case.
- ViewInvariant.BeganConsistent requires that two fingers down are at different places afterwards (`LivesApart`). Two touches landing on the same point make the system singular, and the source then caches an unspecified LAPACK result.
- ViewInvariant.MovedConsistent, like ViewInvariant.MovedTransforms, requires that two fingers down stay at different places. Two fingers moved onto one point give a singular image transform.
- The transform and the solution are recomputed on different events:
  - `touchesBegan` and `touchesEnded` recompute only the solution; the transform is recomputed only on a move;
  - a singular system is not reported as an error.
- `touchesCancelled` is not overridden in the source, so a cancelled touch keeps its slot. The model has no handler for it.
