/** The mesh concatenation of `load_gltf_meshes` (src/vk_loader.cpp),
    starting from an already parsed glTF asset.

    Every glTF mesh becomes one `MeshAsset`: its primitives' indices are
    concatenated into one index buffer, each offset by the number of
    vertices already present, and their vertices into one vertex buffer.
    The attribute names POSITION, NORMAL, TEXCOORD_0 and COLOR_0 are the
    mesh-primitive attribute semantics of section 3.7.2.1 of the Khronos
    glTF 2.0 specification. Float vectors are only copied, never computed
    with, so their components are carried as opaque `real` values. */
module Loader {
  import opened Types

  datatype Vec2 = Vec2(x: real, y: real)
  datatype Vec3 = Vec3(x: real, y: real, z: real)
  datatype Vec4 = Vec4(x: real, y: real, z: real, w: real)

  /** The engine's vertex layout. */
  datatype Vertex = Vertex(position: Vec3, uvX: real, normal: Vec3, uvY: real, color: Vec4)

  const DefaultNormal: Vec3 := Vec3(1.0, 0.0, 0.0)
  const DefaultColor: Vec4 := Vec4(1.0, 1.0, 1.0, 1.0)
  const DefaultUv: Vec2 := Vec2(0.0, 0.0)

  /** A parsed glTF mesh primitive: the values of its index accessor, of
      its POSITION accessor, and of its NORMAL, TEXCOORD_0 and COLOR_0
      accessors when the primitive has them. */
  datatype Primitive = Primitive(
    indices: seq<uint32>,
    positions: seq<Vec3>,
    normals: Option<seq<Vec3>>,
    uvs: Option<seq<Vec2>>,
    colors: Option<seq<Vec4>>)

  datatype GltfMesh = GltfMesh(name: string, primitives: seq<Primitive>)

  /** The part of a parsed glTF asset the loader reads. */
  datatype GltfAsset = GltfAsset(meshes: seq<GltfMesh>)

  /** `GeoSurface`: the range of a mesh's index buffer one primitive
      occupies. */
  datatype GeoSurface = GeoSurface(startIndex: uint32, count: uint32)

  /** `MeshAsset`; its GPU buffers are represented by the index and vertex
      data handed to `upload_mesh`. */
  datatype MeshAsset = MeshAsset(
    name: string,
    surfaces: seq<GeoSurface>,
    indices: seq<uint32>,
    vertices: seq<Vertex>)

  /** An optional attribute accessor never has more elements than the
      POSITION accessor, so every write `vertices[initialVtx + index]` the
      loader makes for it lands inside the vertices of its own primitive. */
  predicate AttributeFits<T>(attr: Option<seq<T>>, vertexCount: nat) {
    attr.None? || |attr.value| <= vertexCount
  }

  predicate WellFormed(p: Primitive) {
    && AttributeFits(p.normals, |p.positions|)
    && AttributeFits(p.uvs, |p.positions|)
    && AttributeFits(p.colors, |p.positions|)
  }

  predicate MeshWellFormed(m: GltfMesh) {
    forall k :: 0 <= k < |m.primitives| ==> WellFormed(m.primitives[k])
  }

  /** The value attribute `attr` gives vertex `i`, or `default` when the
      primitive has no such attribute (or it does not reach vertex `i`). */
  function AttributeOr<T>(attr: Option<seq<T>>, i: nat, default: T): T {
    if attr.Some? && i < |attr.value| then attr.value[i] else default
  }

  /** Vertex `i` of primitive `p` as the loader builds it: position from
      POSITION, and normal, UV and colour from their attributes where
      present, otherwise the defaults (1,0,0), (0,0) and (1,1,1,1). */
  ghost function LoadedVertex(p: Primitive, i: nat): Vertex
    requires i < |p.positions|
  {
    var uv := AttributeOr(p.uvs, i, DefaultUv);
    Vertex(p.positions[i], uv.x, AttributeOr(p.normals, i, DefaultNormal), uv.y, AttributeOr(p.colors, i, DefaultColor))
  }

  /** One vertex of the `OverrideColors` pass: its colour becomes its
      normal with an alpha of one. */
  function ColoredByNormal(v: Vertex): Vertex {
    v.(color := Vec4(v.normal.x, v.normal.y, v.normal.z, 1.0))
  }

  /** `idx + initialVtx` stored into a `uint32_t` index buffer. */
  function OffsetIndex(idx: uint32, initialVtx: nat): (r: uint32)
    ensures idx as int + initialVtx < TWO_TO_THE_32 ==> r as int == idx as int + initialVtx
  {
    Wrap32(idx as int + initialVtx)
  }

  /** Every index of a primitive offset by `initialVtx`, in order. */
  ghost function OffsetIndices(idx: seq<uint32>, initialVtx: nat): (r: seq<uint32>)
    ensures |r| == |idx|
    ensures forall j :: 0 <= j < |idx| ==> (r[j] as int - idx[j] as int - initialVtx) % TWO_TO_THE_32 == 0
    ensures forall j :: 0 <= j < |idx| && idx[j] as int + initialVtx < TWO_TO_THE_32 ==> r[j] as int == idx[j] as int + initialVtx
  {
    seq(|idx|, j requires 0 <= j < |idx| => OffsetIndex(idx[j], initialVtx))
  }

  /** The vertices of one primitive, one per POSITION element, each with
      its normal, UV and colour from the attribute when it reaches that
      vertex and from the defaults (1,0,0), (0,0) and (1,1,1,1) otherwise. */
  ghost function PrimitiveVertices(p: Primitive): (r: seq<Vertex>)
    ensures |r| == |p.positions|
    ensures forall j :: 0 <= j < |p.positions| ==>
      && r[j].position == p.positions[j]
      && r[j].normal == (if p.normals.Some? && j < |p.normals.value| then p.normals.value[j] else Vec3(1.0, 0.0, 0.0))
      && r[j].uvX == (if p.uvs.Some? && j < |p.uvs.value| then p.uvs.value[j].x else 0.0)
      && r[j].uvY == (if p.uvs.Some? && j < |p.uvs.value| then p.uvs.value[j].y else 0.0)
      && r[j].color == (if p.colors.Some? && j < |p.colors.value| then p.colors.value[j] else Vec4(1.0, 1.0, 1.0, 1.0))
  {
    seq(|p.positions|, j requires 0 <= j < |p.positions| => LoadedVertex(p, j))
  }

  /** The two sizes of a primitive the loader accumulates. */
  datatype Measure = IndexCount | VertexCount

  ghost function Size(p: Primitive, measure: Measure): nat {
    match measure
    case IndexCount => |p.indices|
    case VertexCount => |p.positions|
  }

  /** The sum of `measure` over the first `k` primitives. */
  ghost function Base(prims: seq<Primitive>, measure: Measure, k: nat): nat
    requires k <= |prims|
  {
    if k == 0 then 0 else Base(prims, measure, k - 1) + Size(prims[k - 1], measure)
  }

  /** The number of indices the first `k` primitives of a mesh contribute. */
  ghost function IndexBase(prims: seq<Primitive>, k: nat): nat
    requires k <= |prims|
  {
    Base(prims, IndexCount, k)
  }

  /** The number of vertices the first `k` primitives of a mesh contribute:
      the `initialVtx` of primitive `k`. */
  ghost function VertexBase(prims: seq<Primitive>, k: nat): nat
    requires k <= |prims|
  {
    Base(prims, VertexCount, k)
  }

  /** The index buffer once the first `n` primitives are loaded. */
  ghost function MeshIndices(prims: seq<Primitive>, n: nat): (r: seq<uint32>)
    requires n <= |prims|
    ensures |r| == IndexBase(prims, n)
  {
    if n == 0 then []
    else MeshIndices(prims, n - 1) + OffsetIndices(prims[n - 1].indices, VertexBase(prims, n - 1))
  }

  /** The vertex buffer once the first `n` primitives are loaded, before
      recolouring. */
  ghost function MeshVertices(prims: seq<Primitive>, n: nat): (r: seq<Vertex>)
    requires n <= |prims|
    ensures |r| == VertexBase(prims, n)
  {
    if n == 0 then [] else MeshVertices(prims, n - 1) + PrimitiveVertices(prims[n - 1])
  }

  /** The surfaces of the first `n` primitives. */
  ghost function MeshSurfaces(prims: seq<Primitive>, n: nat): (r: seq<GeoSurface>)
    requires n <= |prims|
    ensures |r| == n
  {
    if n == 0 then []
    else MeshSurfaces(prims, n - 1) + [GeoSurface(Wrap32(IndexBase(prims, n - 1)), Wrap32(|prims[n - 1].indices|))]
  }

  /** The `OverrideColors` pass over a vertex buffer. */
  ghost function Recoloured(vs: seq<Vertex>): (r: seq<Vertex>)
    ensures |r| == |vs|
    ensures forall q :: 0 <= q < |vs| ==>
      && r[q].position == vs[q].position
      && r[q].normal == vs[q].normal
      && r[q].uvX == vs[q].uvX
      && r[q].uvY == vs[q].uvY
      && r[q].color == Vec4(vs[q].normal.x, vs[q].normal.y, vs[q].normal.z, 1.0)
  {
    seq(|vs|, q requires 0 <= q < |vs| => ColoredByNormal(vs[q]))
  }

  /** The asset loading glTF mesh `m` produces, a function of `m` alone. */
  ghost function LoadedMesh(m: GltfMesh): MeshAsset {
    var prims := m.primitives;
    MeshAsset(m.name, MeshSurfaces(prims, |prims|), MeshIndices(prims, |prims|), Recoloured(MeshVertices(prims, |prims|)))
  }

  /** The body of the per-primitive loop: appends the primitive's offset
      indices and its vertices to the mesh's buffers and returns its
      surface. */
  method AppendPrimitive(indices: seq<uint32>, vertices: seq<Vertex>, p: Primitive)
    returns (indices': seq<uint32>, vertices': seq<Vertex>, surface: GeoSurface)
    requires WellFormed(p)
    ensures surface.startIndex == Wrap32(|indices|)
    ensures surface.count == Wrap32(|p.indices|)
    ensures indices' == indices + OffsetIndices(p.indices, |vertices|)
    ensures vertices' == vertices + PrimitiveVertices(p)
  {
    surface := GeoSurface(Wrap32(|indices|), Wrap32(|p.indices|));
    var initialVtx := |vertices|;

    // offset indices
    var newIndices: seq<uint32> := [];
    for j := 0 to |p.indices|
      invariant |newIndices| == j
      invariant forall i :: 0 <= i < j ==> newIndices[i] == OffsetIndex(p.indices[i], initialVtx)
    {
      newIndices := newIndices + [OffsetIndex(p.indices[j], initialVtx)];
    }

    // POSITION with default attributes; `block[i]` is `vertices[initialVtx + i]`
    var block: seq<Vertex> := [];
    for j := 0 to |p.positions|
      invariant |block| == j
      invariant forall i :: 0 <= i < j ==> block[i] == Vertex(p.positions[i], 0.0, DefaultNormal, 0.0, DefaultColor)
    {
      block := block + [Vertex(p.positions[j], 0.0, DefaultNormal, 0.0, DefaultColor)];
    }

    // NORMAL overrides the default
    if p.normals.Some? {
      var normals := p.normals.value;
      for j := 0 to |normals|
        invariant |block| == |p.positions|
        invariant forall i :: 0 <= i < |block| ==>
          block[i] == Vertex(p.positions[i], 0.0, if i < j then normals[i] else DefaultNormal, 0.0, DefaultColor)
      {
        block := block[j := block[j].(normal := normals[j])];
      }
    }

    // TEXCOORD_0 overrides the default
    if p.uvs.Some? {
      var uvs := p.uvs.value;
      for j := 0 to |uvs|
        invariant |block| == |p.positions|
        invariant forall i :: 0 <= i < |block| ==>
          block[i] == Vertex(p.positions[i], if i < j then uvs[i].x else 0.0,
                             AttributeOr(p.normals, i, DefaultNormal), if i < j then uvs[i].y else 0.0, DefaultColor)
      {
        block := block[j := block[j].(uvX := uvs[j].x, uvY := uvs[j].y)];
      }
    }

    // COLOR_0 overrides the default
    if p.colors.Some? {
      var colors := p.colors.value;
      for j := 0 to |colors|
        invariant |block| == |p.positions|
        invariant forall i :: 0 <= i < |block| ==>
          block[i] == LoadedVertex(p.(colors := None), i).(color := if i < j then colors[i] else DefaultColor)
      {
        block := block[j := block[j].(color := colors[j])];
      }
    }

    indices' := indices + newIndices;
    vertices' := vertices + block;
  }

  /** The body of the per-mesh loop. `indices` and `vertices` are the
      buffers shared by all meshes, holding whatever the previous mesh left
      in them; they are cleared, every primitive of `m` is loaded into them,
      and the vertices are recoloured. The asset does not depend on what
      the buffers held before, and the buffers are left holding exactly the
      data handed to `upload_mesh`. */
  method LoadMesh(indices: seq<uint32>, vertices: seq<Vertex>, m: GltfMesh)
    returns (a: MeshAsset, indices': seq<uint32>, vertices': seq<Vertex>)
    requires MeshWellFormed(m)
    ensures a == LoadedMesh(m)
    ensures indices' == a.indices && vertices' == a.vertices
  {
    var prims := m.primitives;
    var surfaces: seq<GeoSurface> := [];
    // empty the shared buffers
    indices' := [];
    vertices' := [];
    for i := 0 to |prims|
      invariant surfaces == MeshSurfaces(prims, i)
      invariant indices' == MeshIndices(prims, i)
      invariant vertices' == MeshVertices(prims, i)
    {
      var surface;
      indices', vertices', surface := AppendPrimitive(indices', vertices', prims[i]);
      surfaces := surfaces + [surface];
    }

    // `OverrideColors` is on
    var loaded := vertices';
    for n := 0 to |vertices'|
      invariant |vertices'| == |loaded|
      invariant forall q :: 0 <= q < |vertices'| ==>
        vertices'[q] == if q < n then ColoredByNormal(loaded[q]) else loaded[q]
    {
      vertices' := vertices'[n := ColoredByNormal(vertices'[n])];
    }
    a := MeshAsset(m.name, surfaces, indices', vertices');
  }

  /** `load_gltf_meshes` after parsing: a failed parse gives no meshes at
      all; otherwise one asset per glTF mesh, in order, each loaded from
      its own mesh and nothing else. */
  method LoadGltfMeshes(parsed: Option<GltfAsset>) returns (r: Option<seq<MeshAsset>>)
    requires parsed.Some? ==> forall i :: 0 <= i < |parsed.value.meshes| ==> MeshWellFormed(parsed.value.meshes[i])
    ensures r.None? <==> parsed.None?
    ensures parsed.Some? ==> |r.value| == |parsed.value.meshes|
    ensures parsed.Some? ==> forall i :: 0 <= i < |r.value| ==> r.value[i].name == parsed.value.meshes[i].name
    ensures parsed.Some? ==> forall i :: 0 <= i < |r.value| ==> r.value[i] == LoadedMesh(parsed.value.meshes[i])
  {
    if parsed.None? {
      return None;
    }
    var gltf := parsed.value;
    var meshes: seq<MeshAsset> := [];
    // one pair of buffers for all meshes
    var indices: seq<uint32> := [];
    var vertices: seq<Vertex> := [];
    for i := 0 to |gltf.meshes|
      invariant |meshes| == i
      invariant forall q :: 0 <= q < i ==> meshes[q] == LoadedMesh(gltf.meshes[q])
    {
      var mesh;
      mesh, indices, vertices := LoadMesh(indices, vertices, gltf.meshes[i]);
      meshes := meshes + [mesh];
    }
    return Some(meshes);
  }

  /** The block of primitive `k` ends no later than the first `n`
      primitives do, for any `n` past `k`. */
  lemma {:induction false} BaseMonotone(prims: seq<Primitive>, measure: Measure, k: nat, n: nat)
    requires k < n <= |prims|
    ensures Base(prims, measure, k) + Size(prims[k], measure) <= Base(prims, measure, n)
    decreases n
  {
    if n > k + 1 {
      BaseMonotone(prims, measure, k, n - 1);
    }
  }

  /** Index `j` of primitive `k` sits at position `IndexBase(k) + j` of the
      index buffer, offset by the vertices before its primitive. */
  lemma {:induction false} MeshIndicesAt(prims: seq<Primitive>, n: nat, k: nat, j: nat)
    requires k < n <= |prims|
    requires j < |prims[k].indices|
    ensures IndexBase(prims, k) + j < |MeshIndices(prims, n)|
    ensures MeshIndices(prims, n)[IndexBase(prims, k) + j] == OffsetIndex(prims[k].indices[j], VertexBase(prims, k))
    decreases n
  {
    if k < n - 1 {
      MeshIndicesAt(prims, n - 1, k, j);
    }
  }

  /** Vertex `j` of primitive `k` sits at position `VertexBase(k) + j` of
      the vertex buffer. */
  lemma {:induction false} MeshVerticesAt(prims: seq<Primitive>, n: nat, k: nat, j: nat)
    requires k < n <= |prims|
    requires j < |prims[k].positions|
    ensures VertexBase(prims, k) + j < |MeshVertices(prims, n)|
    ensures MeshVertices(prims, n)[VertexBase(prims, k) + j] == LoadedVertex(prims[k], j)
    decreases n
  {
    if k < n - 1 {
      MeshVerticesAt(prims, n - 1, k, j);
    }
  }

  /** Surface `k` starts after the indices of the primitives before it and
      counts the indices of primitive `k`. */
  lemma {:induction false} MeshSurfacesAt(prims: seq<Primitive>, n: nat, k: nat)
    requires k < n <= |prims|
    ensures MeshSurfaces(prims, n)[k] == GeoSurface(Wrap32(IndexBase(prims, k)), Wrap32(|prims[k].indices|))
    decreases n
  {
    if k < n - 1 {
      MeshSurfacesAt(prims, n - 1, k);
    }
  }

  /** The surfaces tile the mesh's index buffer: when the buffer's size
      fits a `uint32_t`, the first surface starts at zero, each surface
      starts where the one before it ends, the last one ends at the end of
      the buffer, and the indices inside surface `k` are exactly the
      indices of primitive `k`, offset by the vertices before it. */
  lemma SurfacesTileIndices(m: GltfMesh)
    requires |LoadedMesh(m).indices| < TWO_TO_THE_32
    ensures var a := LoadedMesh(m);
      && |a.surfaces| == |m.primitives|
      && (|a.surfaces| > 0 ==> a.surfaces[0].startIndex == 0)
      && (forall k :: 0 <= k < |a.surfaces| - 1 ==>
            a.surfaces[k + 1].startIndex as int == a.surfaces[k].startIndex as int + a.surfaces[k].count as int)
      && (|a.surfaces| > 0 ==>
            a.surfaces[|a.surfaces| - 1].startIndex as int + a.surfaces[|a.surfaces| - 1].count as int == |a.indices|)
  {
    var prims := m.primitives;
    var a := LoadedMesh(m);
    forall k | 0 <= k < |prims|
      ensures a.surfaces[k].startIndex as int == IndexBase(prims, k)
      ensures a.surfaces[k].count as int == |prims[k].indices|
    {
      MeshSurfacesAt(prims, |prims|, k);
      BaseMonotone(prims, IndexCount, k, |prims|);
    }
  }

  /** The indices inside surface `k` are exactly the indices of primitive
      `k`, each offset by the vertices before it; with valid glTF indices
      (each below its primitive's POSITION count) and a vertex buffer
      whose size fits a `uint32_t`, no offset wraps around and every index
      addresses a vertex of its own primitive. */
  lemma SurfaceIndices(m: GltfMesh, k: nat, j: nat)
    requires k < |m.primitives|
    requires j < |m.primitives[k].indices|
    ensures var a, prims := LoadedMesh(m), m.primitives;
      && IndexBase(prims, k) + j < |a.indices|
      && a.indices[IndexBase(prims, k) + j] == OffsetIndex(prims[k].indices[j], VertexBase(prims, k))
      && (|a.indices| < TWO_TO_THE_32 ==> a.surfaces[k].startIndex as int == IndexBase(prims, k))
      && (|a.vertices| <= TWO_TO_THE_32 && prims[k].indices[j] as int < |prims[k].positions| ==>
            VertexBase(prims, k) <= a.indices[IndexBase(prims, k) + j] as int
              < VertexBase(prims, k) + |prims[k].positions| <= |a.vertices|)
  {
    var prims := m.primitives;
    MeshIndicesAt(prims, |prims|, k, j);
    MeshSurfacesAt(prims, |prims|, k);
    BaseMonotone(prims, IndexCount, k, |prims|);
    BaseMonotone(prims, VertexCount, k, |prims|);
  }

  /** Vertex `j` of primitive `k` is uploaded at `VertexBase(k) + j`: its
      position from POSITION, its normal and UV from their attributes or
      the defaults, and its colour (normal, 1). */
  lemma UploadedVertexAt(m: GltfMesh, k: nat, j: nat)
    requires k < |m.primitives|
    requires j < |m.primitives[k].positions|
    ensures var a, p := LoadedMesh(m), m.primitives[k];
      && |a.vertices| == VertexBase(m.primitives, |m.primitives|)
      && VertexBase(m.primitives, k) + j < |a.vertices|
      && var v := a.vertices[VertexBase(m.primitives, k) + j];
      && v.position == p.positions[j]
      && v.normal == AttributeOr(p.normals, j, DefaultNormal)
      && v.uvX == AttributeOr(p.uvs, j, DefaultUv).x
      && v.uvY == AttributeOr(p.uvs, j, DefaultUv).y
      && v.color == Vec4(v.normal.x, v.normal.y, v.normal.z, 1.0)
  {
    MeshVerticesAt(m.primitives, |m.primitives|, k, j);
  }
}
