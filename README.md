# cupoch `geometry::PointCloud` — a Dafny model

This project models the point-cloud geometry of cupoch, a GPU point-cloud library. A point cloud is
three parallel lists of 3-vectors: points, normals and colors. The model covers:

- construction and clearing;
- the emptiness and attribute queries;
- the axis-aligned bounds;
- the homogeneous 4x4 transform;
- normal normalisation and orientation;
- selection by index (plain and inverted);
- voxel and uniform down-sampling;
- cropping to an axis-aligned box.

The behaviour follows the repository's unit tests for the class, `src/tests/geometry/pointcloud.cpp`.
The implementation file of the class is not part of this model.

Layout (one module per file):

- `vectors.dfy`, module `Vectors`: 3-vectors over `real`, dot/cross products, component-wise
  min/max, and the square-root contract `IsSqrt`.
- `sequences.dfy`, module `Sequences`: distinctness, gathering by index lists, permutation facts.
- `cloud.dfy`, module `Clouds`: the cloud as a value, the error kinds, and `SubCloud`. SubCloud
  gathers the points and carries each attribute only when it is paired with the points.
- `bounds.dfy`, module `Bounds`: min/max bounds.
- `transform.dfy`, module `Transformation`: 4x4 matrices, the projective point map, the normal
  map and their composition laws.
- `normals.dfy`, module `Normals`: normalisation and orientation of normals.
- `selection.dfy`, module `Selection`: selection by index, inverted selection, box cropping.
- `downsample.dfy`, module `Downsample`: uniform down-sampling.
- `voxel.dfy`, module `Voxels`: the voxel grid and voxel down-sampling.
- `pointcloud.dfy`, module `Geometry`: the mutable `PointCloud` class with its three sequence
  fields. The setters and `Clear` assign a field wholesale. `Transform`, `NormalizeNormals` and
  `OrientNormalsToAlignWithDirection` rewrite their fields in place, one entry per loop iteration.

The operations that build a new cloud (selection, down-sampling, cropping) are functions on a
`Cloud` value holding the same three lists as the class's fields.
Square roots are a parameter `sqrt` that must satisfy `IsSqrt`. Coordinates are exact reals.

## Model

| member | source | states |
|---|---|---|
| Geometry.PointCloud.constructor | src/tests/geometry/pointcloud.cpp:34-53 | a new cloud has no points, normals or colors, is empty, and both bounds are the zero vector |
| Geometry.PointCloud.Clear | src/tests/geometry/pointcloud.cpp:55-92 | after clearing, all three attributes are empty, the cloud reports empty and has no points, normals or colors, and both bounds are zero |
| Geometry.PointCloud.SetPoints | src/tests/geometry/pointcloud.cpp:94-109 | the points become the given list and normals and colors are unchanged; afterwards `IsEmpty` holds exactly when the list is empty and `HasPoints` exactly when it is not |
| Geometry.PointCloud.SetNormals | src/tests/geometry/pointcloud.cpp:206-219 | the normals become the given list and points and colors are unchanged; afterwards `HasNormals` holds exactly when the list is non-empty |
| Geometry.PointCloud.SetColors | src/tests/geometry/pointcloud.cpp:221-234 | the colors become the given list and points and normals are unchanged; afterwards `HasColors` holds exactly when the list is non-empty |
| Geometry.PointCloud.GetMinBound | src/tests/geometry/pointcloud.cpp:111-125 | zero for an empty cloud; otherwise component-wise below or equal to every point |
| Geometry.PointCloud.GetMaxBound | src/tests/geometry/pointcloud.cpp:127-141 | zero for an empty cloud; otherwise component-wise above or equal to every point |
| Bounds.MinBound | src/tests/geometry/pointcloud.cpp:111-125 | zero for no points; a lower bound of every point on every axis |
| Bounds.MaxBound | src/tests/geometry/pointcloud.cpp:127-141 | zero for no points; an upper bound of every point on every axis |
| Bounds.MinBoundAttained | src/tests/geometry/pointcloud.cpp:111-125 | for a non-empty list, each coordinate of the min bound is the coordinate of some input point, so the bound is the greatest lower bound |
| Bounds.MaxBoundAttained | src/tests/geometry/pointcloud.cpp:127-141 | for a non-empty list, each coordinate of the max bound is the coordinate of some input point |
| Bounds.BoundsAreTight | src/tests/geometry/pointcloud.cpp:111-141 | any lower bound of all points lies below the min bound, and any upper bound lies above the max bound |
| Geometry.PointCloud.Transform | src/tests/geometry/pointcloud.cpp:143-191 | every point is replaced by its projective image under the matrix, every normal by its image under the upper-left 3x3 block, and colors are unchanged |
| Transformation.TransformPoints | src/tests/geometry/pointcloud.cpp:143-191 | the image list has the input's length and holds each point's projective image in place |
| Transformation.TransformNormals | src/tests/geometry/pointcloud.cpp:143-191 | the image list has the input's length and holds each normal's linear image in place |
| Transformation.PointIsNormalPlusTranslation | src/tests/geometry/pointcloud.cpp:143-191 | a point's image is its image under the 3x3 block plus the translation column, divided by the homogeneous coordinate |
| Transformation.TransformPointCompose | src/tests/geometry/pointcloud.cpp:143-191 | transforming by m1 and then by m2 equals transforming once by the product m2*m1 |
| Transformation.TransformPointsCompose | src/tests/geometry/pointcloud.cpp:143-191 | the composition law holds for a whole list of points |
| Transformation.TransformNormalCompose | src/tests/geometry/pointcloud.cpp:143-191 | when m1 is affine, transforming a normal by m1 and then by m2 equals transforming it by m2*m1 |
| Transformation.TransformNormalsCompose | src/tests/geometry/pointcloud.cpp:143-191 | the composition law for normals holds for a whole list |
| Transformation.ApplyMul | src/tests/geometry/pointcloud.cpp:143-191 | applying a matrix product to a vector is applying its factors in turn |
| Geometry.PointCloud.NormalizeNormals | src/tests/geometry/pointcloud.cpp:236-273 | each normal is replaced by its normalised form; every non-zero normal becomes unit length and parallel to the original; points and colors are unchanged |
| Normals.Normalize | src/tests/geometry/pointcloud.cpp:236-273 | a zero normal is kept; a non-zero one becomes unit length, parallel to the input and pointing the same way |
| Normals.UnitIsNormalized | src/tests/geometry/pointcloud.cpp:236-273 | a unit-length normal is left unchanged by normalisation |
| Normals.NormalizeIdempotent | src/tests/geometry/pointcloud.cpp:236-273 | normalising twice gives the same as normalising once |
| Normals.NormalizeAll | src/tests/geometry/pointcloud.cpp:236-273 | the list keeps its length and holds each normal's normalised form in place |
| Normals.NormalizeAllIdempotent | src/tests/geometry/pointcloud.cpp:236-273 | normalising a whole list twice gives the same as normalising it once |
| Selection.SelectByIndex | src/tests/geometry/pointcloud.cpp:275-327 | fails with an index error exactly when some index is out of range; otherwise the result keeps the entries at the selected positions (the index list itself, or, when inverted, every other position in ascending order): output j is the input entry at the j-th selected position, with its normal and color when those are paired with the points and none otherwise; the inverted points are exactly those at unselected positions |
| Selection.ComplementIndices | src/tests/geometry/pointcloud.cpp:275-327 | the complement lists, in ascending order and without repetition, exactly the in-range positions missing from the index list |
| Selection.ComplementMembership | src/tests/geometry/pointcloud.cpp:275-327 | gathering the complement positions yields exactly the points found at some position outside the index list |
| Selection.SelectOrderIrrelevant | src/tests/geometry/pointcloud.cpp:275-327 | reordering the index list leaves plain selection valid and gives the same points as a multiset, which is why the expected results can be compared after sorting |
| Selection.SelectPartition | src/tests/geometry/pointcloud.cpp:313-326 | for distinct in-range indices, the selected points and the inverted selection together form exactly the input, as a multiset |
| Voxels.VoxelDownSample | src/tests/geometry/pointcloud.cpp:329-427 | a non-positive voxel size is rejected with an invalid-argument error; otherwise the result is well formed, has no more points than the input, is empty exactly when the input is, and keeps normals and colors exactly when they are paired with the points; `VoxelMeans` gives the value of each output entry |
| Voxels.VoxelMeans | src/tests/geometry/pointcloud.cpp:329-427 | each output entry belongs to one occupied voxel: its point is the mean of that voxel's points, its normal the normalised mean of the voxel's normals and its color the mean of the voxel's colors, when those are paired with the points |
| Voxels.VoxelCount | src/tests/geometry/pointcloud.cpp:329-427 | the output has one point per occupied voxel |
| Voxels.VoxelOutputInVoxel | src/tests/geometry/pointcloud.cpp:329-427 | each output point lies in the extent of an occupied voxel; distinct outputs come from distinct voxels; each output is within one voxel size, on every axis, of each input point of its voxel |
| Voxels.MeanInVoxel | src/tests/geometry/pointcloud.cpp:329-427 | the mean of the points of one voxel lies inside that voxel, so it maps back to the same voxel key |
| Voxels.VoxelDistinctIdentity | src/tests/geometry/pointcloud.cpp:329-427 | when every point has a voxel of its own, down-sampling returns the points and colors unchanged and the normals normalised |
| Voxels.Cell | src/tests/geometry/pointcloud.cpp:329-427 | the cell index of a coordinate is the one whose extent [start, start + size) holds it |
| Voxels.CellOf | src/tests/geometry/pointcloud.cpp:329-427 | any coordinate inside a cell's extent has that cell as its index |
| Voxels.GridKeysNonNegative | src/tests/geometry/pointcloud.cpp:329-427 | with the grid anchored at the min bound, every voxel index is non-negative |
| Voxels.Dedup | src/tests/geometry/pointcloud.cpp:329-427 | the occupied-voxel list has no repeats and holds exactly the keys that occur |
| Voxels.DedupOfDistinct | src/tests/geometry/pointcloud.cpp:329-427 | a list without repeats is left unchanged by de-duplication |
| Voxels.GroupSumBounds | src/tests/geometry/pointcloud.cpp:329-427 | if every member of a voxel lies in [lo, hi) on an axis, their sum on that axis lies in [count * lo, count * hi) |
| Voxels.MeansOfDistinct | src/tests/geometry/pointcloud.cpp:329-427 | when keys are distinct, each voxel's mean is its single member |
| Downsample.UniformDownSample | src/tests/geometry/pointcloud.cpp:429-471 | a sampling rate of zero is rejected; otherwise output entry j is input entry j*k, with its paired normal and color; normals or colors not paired with the points are dropped |
| Downsample.UniformCount | src/tests/geometry/pointcloud.cpp:429-471 | the output has exactly ceil(N / k) points |
| Downsample.UniformKeepsMultiples | src/tests/geometry/pointcloud.cpp:429-471 | every input position that is a multiple of k is kept at position i / k, and no other position is kept |
| Downsample.UniformSubMultiset | src/tests/geometry/pointcloud.cpp:429-471 | the output is a sub-multiset of the input |
| Downsample.StrideLength | src/tests/geometry/pointcloud.cpp:429-471 | the kept positions number ceil((N - start) / k), stated without division |
| Selection.Crop | src/tests/geometry/pointcloud.cpp:473-491 | the cropped cloud keeps, in ascending order, the entries at the positions whose point lies in the box, with their normals and colors when those are paired with the points and none otherwise; so every kept point lies in the box and every input point in the box is kept |
| Selection.IndicesInBox | src/tests/geometry/pointcloud.cpp:473-491 | the in-box positions are ascending, in range, and hold exactly the positions whose point lies in the box |
| Selection.GatherInBox | src/tests/geometry/pointcloud.cpp:473-491 | gathering the in-box positions gives the same list as filtering the points by the box |
| Selection.PointsInBoxCount | src/tests/geometry/pointcloud.cpp:473-491 | filtering keeps each in-box point as many times as it occurs and drops every other |
| Selection.CropMultiset | src/tests/geometry/pointcloud.cpp:473-491 | the cropped points are, as a multiset, exactly the input points inside the box |
| Geometry.PointCloud.OrientNormalsToAlignWithDirection | src/tests/geometry/pointcloud.cpp:557-614 | every normal is kept or negated so that its dot product with the direction is non-negative; points and colors are unchanged |
| Normals.Orient | src/tests/geometry/pointcloud.cpp:557-614 | the result has a non-negative dot product with the direction and is the normal or its negation; the normal is kept exactly when it already faces the direction or is zero |
| Normals.OrientAll | src/tests/geometry/pointcloud.cpp:557-614 | the list keeps its length and holds each normal oriented towards the direction, in place |

## Left out

- EstimateNormals: the k-nearest-neighbour search and the eigen-decomposition of covariance
  matrices are numerical routines outside this model.
- Floating point: coordinates are exact reals. The tests compare with a tolerance and use
  randomly generated fixtures; the model states exact properties for all inputs instead.
- Square roots: taken as a parameter satisfying `IsSqrt`, because Dafny's reals have no square root.
- Sorting the results before comparing: the tests sort with a helper of their own. The model
  states order-independent facts (multisets, membership) where the tests sort.
- Image I/O (`image_io.h`) and GPU parallelism (device vectors, kernels) are not modelled;
  each operation is sequential here.
- Geometry.PointCloud.Transform: requires every point's homogeneous coordinate to be non-zero.
  In floating point a zero would give infinities.
- Geometry.PointCloud.Transform: transforms every normal, whether or not the normals are paired
  with the points.
- Voxels.VoxelDownSample: outputs voxels in the order of each voxel's first occurrence. The
  library's own order comes from a GPU sort by key. The properties proved do not depend on order.
- Voxels.VoxelDownSample: the grid is anchored at the min bound of the points. Any half-voxel
  shift of the origin is not modelled.
- Voxels.VoxelDownSample: averaged normals are normalised, which is what the unit test's expected
  values show. A plain unnormalised mean of the normals is not modelled.
- Voxels.VoxelDownSample: voxel indices are unbounded integers; overflow of the library's 32-bit
  voxel indices is not modelled.
- Selection.SelectByIndex: plain selection keeps the order of the index list and its repeats. The
  output is meant to follow the sorted, de-duplicated indices. The two agree as
  multisets for distinct indices; Selection.SelectOrderIrrelevant shows the result as a multiset
  does not depend on the order of the index list.
- HasNormals and HasColors mean "non-empty". The derived clouds carry an attribute only when its
  length equals the number of points.
