# Deletion queue and asset registry of a Vulkan renderer

This project models two parts of `VulkanEngine` (src/vk_engine.h) in Dafny and proves their contracts.

- **`DeletionQueue`**: the deferred-cleanup list. `push_function` appends a cleanup closure at the back of a deque. `flush` calls every closure from the back to the front and then clears the deque. Here each closure is an opaque `Cleanup` identifier. Calling a closure appends its identifier to the queue's `executed` record. Flushing therefore appends the reverse of the pending queue to `executed` and leaves the queue empty. The proved properties are:
  - last registered, first executed;
  - every queued action runs exactly once;
  - the queue can be reused after a flush;
  - a flush straight after another flush runs nothing.
- **Asset registry**: the `_materials` and `_meshes` maps, keyed by name. `create_material` builds a `Material` (a pipeline and a pipeline layout) and adds it to `_materials`. `get_material` and `get_mesh` return null on a miss; here they return `None`.

Files:
- `deletion_queue.dfy`, module `DeletionQueues`: the queue class, its run-order function `Reversed`, and lemmas about that function.
- `engine.dfy`, modules `Wrappers` (`Option`) and `Engine`: the registry.

## Model

| member | source | states |
|---|---|---|
| DeletionQueues.Reversed | src/vk_engine.h:68-71 | the back-to-front run order has exactly as many entries as the queue |
| DeletionQueues.ReversedAt | src/vk_engine.h:68-71 | the k-th action run is the one registered k places from the back (strict reverse order of registration) |
| DeletionQueues.ReversedIsPermutation | src/vk_engine.h:69-71 | a flush runs every queued action exactly as many times as it was queued, and nothing else |
| DeletionQueues.ReversedAppend | src/vk_engine.h:61-74 | for actions pushed in two batches, the later batch runs entirely before the earlier one |
| DeletionQueues.LastRegisteredRunsFirst | src/vk_engine.h:63-71 | an action pushed last runs first, and the rest then run in their own reverse order |
| DeletionQueues.ReversedInvolution | src/vk_engine.h:68-71 | the run order determines the registration order: reversing it gives back the queue |
| DeletionQueues.DeletionQueue.constructor | src/vk_engine.h:61 | a new queue is empty and has run nothing |
| DeletionQueues.DeletionQueue.PushFunction | src/vk_engine.h:63-65 | the queue grows by exactly one, the new action is last, earlier entries are unchanged, and nothing runs |
| DeletionQueues.DeletionQueue.Flush | src/vk_engine.h:67-74 | the actions run are exactly the reverse of the queue at entry, appended after what ran before, and the queue is then empty |
| DeletionQueues.PushAll | src/vk_engine.h:63-65 | pushing a list one action at a time appends the whole list in order and runs nothing |
| DeletionQueues.FlushReuse | src/vk_engine.h:61-74 | on one queue, push then flush runs the pushed actions in reverse; a second flush runs nothing; new pushes and a third flush run only the new actions, in reverse |
| Engine.VulkanEngine.constructor | src/vk_engine.h:158-159 | a new engine has no materials and no meshes |
| Engine.VulkanEngine.GetMaterial | src/vk_engine.h:165-166 | returns None exactly when the name is not a key of the materials map, otherwise the material stored under it |
| Engine.VulkanEngine.GetMesh | src/vk_engine.h:168-169 | returns None exactly when the name is not a key of the meshes map, otherwise the mesh stored under it |
| Engine.VulkanEngine.CreateMaterial | src/vk_engine.h:158-163 | afterwards the name is registered and the result is what a lookup of it returns; the stored material is either the new one built from the given pipeline and layout or, only when the name was already registered, the old one; for a new name it is the new one; the map changes at most at that name; other names keep their materials and the meshes map is unchanged |
| Engine.CreateThenGet | src/vk_engine.h:158-169 | on a fresh engine, looking up a just-created material returns its pipeline and layout, while other names and mesh lookups miss |

## Left out

- Engine.VulkanEngine.CreateMaterial: says nothing about which entry wins when the name is already registered, because the body of `create_material` is not part of this model. It could overwrite (`operator[]`) or keep the first entry (`insert`). The model chooses between the two arbitrarily. It promises only what holds either way: the stored and returned material is either the new one or the one already registered, and no other entry changes.
- The returned `Material*` and `Mesh*` pointers are modelled as values. Pointer identity and aliasing into the maps are not captured.
- The cleanup closures' own effects: they are modelled as opaque identifiers. They are assumed never to push onto or flush the queue that runs them.
- DeletionQueues.DeletionQueue.Flush: a closure that throws, including an empty `std::function` (which throws `std::bad_function_call`), ends `flush` early. The remaining actions are then not called and the deque is not cleared. The model assumes every action returns normally.
- `Mesh`: its definition lives in vk_mesh.h, which is not part of this model. A mesh is an opaque identity here.
- No shown code adds meshes. `_meshes` is a public field, modelled as a field that callers fill.
- `PipelineBuilder` and `build_pipeline`: thin wrappers over the Vulkan API.
- `init`, the `init_*` functions, `draw`, `run`, `cleanup`, `upload_mesh`, `create_buffer`, `load_shader_module` and `init_descriptors`: Vulkan, VMA, SDL and file I/O plumbing whose bodies are not part of this model.
- `get_current_frame`, `pad_uniform_buffer_size` and `draw_objects`: their bodies are not in the header, so their arithmetic and loops are not modelled.
- `FrameData`, `FRAME_OVERLAP` and fence/semaphore synchronisation: these concern concurrency between the GPU and the host.
- `GPUSceneData`, `GPUCameraData`, `MeshPushConstants` and the `RenderObject` transform: floating-point data with no logic.
- src/log.h, src/log.cpp, the `VK_CHECK` macro and src/main.cpp: logging I/O, a call to `abort()`, and the program driver.
