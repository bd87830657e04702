# Vulkan guide engine: sequential core in Dafny

This project models the three pieces of sequential logic inside a small
Vulkan rendering engine (the vulkan-guide tutorial engine) and proves
properties of them:

- **Deferred teardown and frame slots** (`engine.dfy`, module `Engine`).
  `DeletionQueue` is a LIFO list of deletors. `push_function` appends one
  deletor, and `flush` runs all of them from newest to oldest and then
  empties the queue. A deletor is an opaque token here, and `Flush` returns
  the trace of tokens it ran together with the queue it leaves behind.
  `get_current_frame` picks one of the `FRAME_OVERLAP` (= 2) per-frame
  structures with `_frameNumber % FRAME_OVERLAP`. The C++ `int` frame
  number is converted to `unsigned` first, and the model does that
  conversion explicitly.
- **Descriptor set layout builder and pool description**
  (`descriptors.dfy`, module `Descriptors`). `add_binding` appends a
  zero-initialised binding with one descriptor. `clear` empties the list.
  `build` ORs the requested shader-stage mask (a `bv32`) into every
  binding, then fills in the create-info passed to
  `vkCreateDescriptorSetLayout`. `init_pool` builds one pool-size entry per
  ratio and the create-info passed to `vkCreateDescriptorPool`.
- **Mesh concatenation in `load_gltf_meshes`** (`loader.dfy`, module
  `Loader`). The input is an already parsed glTF asset. For each glTF mesh,
  the primitives' indices go into one index buffer, each offset by the
  number of vertices already loaded. The primitives' vertices go into one
  vertex buffer. POSITION is always read. NORMAL, TEXCOORD_0 and COLOR_0
  replace the defaults (1,0,0), (0,0) and (1,1,1,1) when present. These
  names are the mesh-primitive attribute semantics of section 3.7.2.1 of
  the Khronos glTF 2.0 specification. Each primitive gets a
  `GeoSurface{startIndex, count}`. The `OverrideColors` pass then sets
  every colour to (normal, 1).
- `types.dfy` (module `Types`) holds `uint32`, `int32` and the
  `(uint32_t)` truncation `Wrap32`, plus `Option`.

The imperative parts of the loader are methods with loops that mirror the
C++ (`AppendPrimitive`, `LoadMesh`, `LoadGltfMeshes`). As in the C++, one
index buffer and one vertex buffer are shared by all meshes and cleared at
the start of each. They are proved
equal to functional reference definitions (`MeshIndices`, `MeshVertices`,
`MeshSurfaces`, `LoadedMesh`). The layout properties are lemmas about
those definitions.

Every narrowing to `uint32_t` is written as `Wrap32`. That covers the
`(uint32_t)` casts of `bindingCount`, `poolSizeCount`, `startIndex` and
`count`, and the implicit `size_t` to `uint32_t` conversion of the pushed
index `idx + initialVtx` in `push_back`. Properties that need the value to fit carry that
condition explicitly.

## Model

| member | source | states |
|---|---|---|
| Types.Wrap32 | src/vk_descriptors.cpp:26 | A `(uint32_t)` cast of a count keeps the count when it is below 2^32, and is congruent to it modulo 2^32 otherwise |
| Engine.PushFunction | src/vk_engine.h:14-16 | The new deletor is at the back, the queue grew by one, and every earlier deletor stays in place and in order |
| Engine.RunNewestFirst | src/vk_engine.h:19-21 | Walking from `rbegin()` to `rend()` visits every deletor once: position i of the trace holds deletor n-1-i |
| Engine.Flush | src/vk_engine.h:18-25 | The trace has one entry per queued deletor in reverse push order, and the queue left behind is empty |
| Engine.FlushRunsEachOnce | src/vk_engine.h:18-22 | The trace and the queue are equal as multisets, so every deletor runs exactly once |
| Engine.FlushAfterPush | src/vk_engine.h:14-22 | The deletor pushed last runs first, followed by exactly the trace the queue would have produced without it |
| Engine.FlushReversesPushOrder | src/vk_engine.h:14-22 | Pushing a list of deletors onto an empty queue and flushing runs them in exactly the reverse of the push order |
| Engine.FlushTwiceRunsNothing | src/vk_engine.h:18-25 | A second flush right after a flush runs nothing and leaves the queue empty |
| Engine.AsUnsigned | src/vk_engine.h:83 | The `int` to `unsigned` conversion yields a `uint32` value congruent to the frame number modulo 2^32 |
| Engine.FrameSlot | src/vk_engine.h:82-83 | The slot `_frameNumber % FRAME_OVERLAP` is below `FRAME_OVERLAP` for every 32-bit frame number, negative ones included, so `_frames[...]` is in bounds |
| Engine.FrameSlotIsParity | src/vk_engine.h:83 | After the unsigned conversion the slot equals the non-negative remainder of the signed frame number modulo 2 |
| Engine.FrameSlotsAlternate | src/vk_engine.h:83 | Consecutive frame numbers use different slots whenever the increment stays within `int`, and frame numbers two apart use the same slot whenever that sum stays within `int` |
| Descriptors.AddBinding | src/vk_descriptors.cpp:4-11 | Exactly one binding is appended, carrying the given number and type, descriptor count 1 and stage mask 0; earlier bindings are unchanged and in order |
| Descriptors.Clear | src/vk_descriptors.cpp:13-15 | The binding list is empty afterwards |
| Descriptors.AddBindingsInOrder | src/vk_descriptors.cpp:4-15 | After `clear`, a series of `add_binding` calls yields exactly the requested (number, type) records in call order, each with count 1 and no stages |
| Descriptors.WithStages | src/vk_descriptors.cpp:19 | The new stage mask is the smallest mask containing both the old mask and the requested stages, so no bit is cleared; number, type and count are unchanged |
| Descriptors.OrStages | src/vk_descriptors.cpp:18-20 | Every binding gets the requested stages, and the list keeps its length and order |
| Descriptors.Build | src/vk_descriptors.cpp:17-27 | The builder's bindings are updated in place by the OR, the create-info points at those bindings, `bindingCount` equals their number when it fits 32 bits, and `flags` is 0 |
| Descriptors.BuildTwiceAccumulates | src/vk_descriptors.cpp:18-20 | Building with one mask and then another equals building once with their union |
| Descriptors.BuildIsIdempotent | src/vk_descriptors.cpp:18-20 | Building again with the same mask changes neither the builder nor the create-info |
| Descriptors.InitPool | src/vk_descriptors.cpp:35-48 | One pool size per ratio in input order, each with the ratio's descriptor type and the scaled count; `poolSizeCount` equals the number of ratios when it fits 32 bits; `maxSets` is passed through; `flags` is 0 |
| Loader.OffsetIndex | src/vk_loader.cpp:64-67 | A pushed index is the source index plus `initialVtx` whenever that sum fits in a `uint32_t` |
| Loader.OffsetIndices | src/vk_loader.cpp:64-67 | Each pushed index is congruent to the source index plus `initialVtx` modulo 2^32, and equal to that sum when it fits in a `uint32_t`; one entry per source index |
| Loader.PrimitiveVertices | src/vk_loader.cpp:70-113 | One vertex per POSITION element; its position comes from POSITION, and its normal, UV and colour from NORMAL / TEXCOORD_0 / COLOR_0 where that accessor reaches the vertex, otherwise (1,0,0), (0,0) and (1,1,1,1) |
| Loader.AppendPrimitive | src/vk_loader.cpp:52-115 | The primitive's surface starts at the old index count and counts its own indices. Its offset indices are appended after the existing ones. Its vertices (position, then NORMAL / TEXCOORD_0 / COLOR_0 over the defaults) are appended after the existing vertices. Nothing already loaded changes |
| Loader.MeshIndices | src/vk_loader.cpp:52-68 | The index buffer after n primitives holds exactly as many indices as those primitives' index accessors together |
| Loader.MeshVertices | src/vk_loader.cpp:70-85 | The vertex buffer after n primitives holds exactly as many vertices as those primitives' POSITION accessors together |
| Loader.MeshSurfaces | src/vk_loader.cpp:53-55 | There is one surface per loaded primitive |
| Loader.Recoloured | src/vk_loader.cpp:118-123 | The `OverrideColors` pass keeps the buffer's length, keeps every vertex's position, normal and UV, and sets its colour to (normal, 1) |
| Loader.LoadMesh | src/vk_loader.cpp:42-124 | Whatever the shared index and vertex buffers hold from the previous mesh, clearing them and then loading the mesh primitive by primitive and recolouring gives exactly `LoadedMesh(m)`, so nothing of an earlier mesh leaks into it; the buffers are left holding exactly that asset's indices and vertices |
| Loader.LoadGltfMeshes | src/vk_loader.cpp:19-130 | A failed parse yields no result. Otherwise there is one asset per glTF mesh, in source order, carrying that mesh's name and loaded from that mesh only |
| Loader.MeshIndicesAt | src/vk_loader.cpp:54-67 | Index j of primitive k lands at position (indices of earlier primitives) + j, offset by the vertices of earlier primitives |
| Loader.MeshVerticesAt | src/vk_loader.cpp:57-83 | Vertex j of primitive k lands at position (vertices of earlier primitives) + j |
| Loader.MeshSurfacesAt | src/vk_loader.cpp:53-55 | Surface k starts after the indices of the earlier primitives and counts primitive k's indices |
| Loader.SurfacesTileIndices | src/vk_loader.cpp:54-55 | When the index buffer fits 32 bits, the first surface starts at 0, each surface starts where the previous one ends, and the last one ends at the end of the buffer |
| Loader.SurfaceIndices | src/vk_loader.cpp:54-67 | Position `startIndex + j` holds primitive k's index j offset by the earlier vertices. With valid glTF indices and a vertex buffer that fits 32 bits, that index points into primitive k's own vertices |
| Loader.UploadedVertexAt | src/vk_loader.cpp:72-123 | An uploaded vertex has its position from POSITION, its normal and UV from NORMAL / TEXCOORD_0 or the defaults (1,0,0) and (0,0), and colour (normal, 1) |

## Left out

- `src/vk_pipelines.cpp` (`load_shader_module`) is file I/O followed by a foreign `vkCreateShaderModule` call. It has no logic of its own to state.
- All Vulkan and VMA calls are left out. That covers `vkCreateDescriptorSetLayout`, `vkCreateDescriptorPool`, `vkAllocateDescriptorSets`, `vkResetDescriptorPool`, `vkDestroyDescriptorPool` and `VK_CHECK`. `build` and `init_pool` are modelled up to the create-info they pass in. `clear_descriptors`, `destroy_pool` and `allocate` are single foreign calls and are not modelled.
- The float product `uint32_t(ratio.ratio * maxSets)` in `init_pool` is floating-point truncation. `InitPool` takes it as the function parameter `scaledCount`.
- The `pImmutableSamplers` field of a layout binding is always null in this code and is not modelled.
- glTF parsing is done by fastgltf, including `iterateAccessor` and `findAttribute`. It is a foreign library: `LoadGltfMeshes` takes the parse result as an `Option` (None = parse failure) and the accessors' values as sequences.
- A primitive without an index accessor makes the code throw (`bad_optional_access`). A primitive without POSITION dereferences the end iterator. The model's `Primitive` always carries both, so neither path is modelled.
- An attribute accessor longer than POSITION makes the code write past the end of the vertex vector (undefined behaviour). `AppendPrimitive`, `LoadMesh` and `LoadGltfMeshes` require attribute accessors no longer than POSITION. Shorter accessors are allowed and leave the defaults in place, as the code does. glTF 2.0 itself asks all attribute accessors of a primitive to have the same count.
- `upload_mesh` (the GPU upload) and the `shared_ptr` ownership are not modelled. `MeshAsset` holds the index and vertex data handed to `upload_mesh` in place of the GPU buffers.
- glm float values are copied and never computed with, so their components are carried as `real`.
- `OverrideColors` is a compile-time constant set to true. Only the recolouring path is modelled.
- Logging (`std::cout`, `fmt::println`) is left out.
- The effects of individual deletors (`std::function` bodies) are left out. A deletor is an opaque token, and running it is recorded in the trace.
- `VulkanEngine` init, draw, run, immediate submit, fences, semaphores and the swapchain are left out. They are declarations only in this source and concern GPU synchronisation.
- Engine.FrameSlotsAlternate: says nothing about an increment of `_frameNumber` past `INT_MAX`, because that is undefined behaviour in C++.
