/** Optional values: a lookup that can miss returns `None` where the engine
    returns a null pointer. */
module Wrappers {
  datatype Option<+T> = None | Some(value: T)
}

/** The asset registry of `VulkanEngine` (src/vk_engine.h): materials and
    meshes stored by name, with lookups that report a miss. */
module Engine {
  import opened Wrappers

  /** Opaque Vulkan handles. */
  datatype Pipeline = Pipeline(handle: nat)
  datatype PipelineLayout = PipelineLayout(handle: nat)

  /** A material is the pipeline and pipeline layout it is drawn with. */
  datatype Material = Material(pipeline: Pipeline, pipelineLayout: PipelineLayout)

  /** Mesh data lives in a header that is not part of this model; a mesh is
      known here only by identity. */
  datatype Mesh = Mesh(id: nat)

  class VulkanEngine {
    var materials: map<string, Material>
    var meshes: map<string, Mesh>

    /** A new engine has no registered assets. */
    constructor ()
      ensures materials == map[] && meshes == map[]
    {
      materials := map[];
      meshes := map[];
    }

    /** `get_material`: the material registered under `name`, or `None`
        when no material has that name. */
    function GetMaterial(name: string): (r: Option<Material>)
      reads this
      ensures r == None <==> name !in materials
      ensures r.Some? ==> name in materials && materials[name] == r.value
    {
      if name in materials then Some(materials[name]) else None
    }

    /** `get_mesh`: the mesh registered under `name`, or `None` when no mesh
        has that name. */
    function GetMesh(name: string): (r: Option<Mesh>)
      reads this
      ensures r == None <==> name !in meshes
      ensures r.Some? ==> name in meshes && meshes[name] == r.value
    {
      if name in meshes then Some(meshes[name]) else None
    }

    /** `create_material`: build a material from `pipeline` and `layout` and
        add it to the map under `name`; the result is the material now stored
        under `name`. Whether an existing entry with that name is replaced or
        kept is not decided here: the choice below is left open. */
    method CreateMaterial(pipeline: Pipeline, layout: PipelineLayout, name: string)
      returns (m: Material)
      modifies this
      ensures GetMaterial(name) == Some(m)
      ensures name !in old(materials) ==> m == Material(pipeline, layout)
      ensures m == Material(pipeline, layout) || (name in old(materials) && m == old(materials)[name])
      ensures materials == old(materials)[name := m]
      ensures materials.Keys == old(materials.Keys) + {name}
      ensures forall n :: n in materials && n != name ==> materials[n] == old(materials)[n]
      ensures meshes == old(meshes)
    {
      var replace: bool :| true;
      if name !in materials || replace {
        materials := materials[name := Material(pipeline, layout)];
      }
      m := materials[name];
    }
  }

  /** On a fresh engine, registering a material and looking it up by name
      gives back the pipeline and layout it was created with, while any other
      name and every mesh name still miss. */
  method CreateThenGet(pipeline: Pipeline, layout: PipelineLayout, name: string, other: string)
    returns (found: Option<Material>, missed: Option<Material>, mesh: Option<Mesh>)
    requires other != name
    ensures found == Some(Material(pipeline, layout))
    ensures found.value.pipeline == pipeline && found.value.pipelineLayout == layout
    ensures missed == None
    ensures mesh == None
  {
    var engine := new VulkanEngine();
    var created := engine.CreateMaterial(pipeline, layout, name);
    found := engine.GetMaterial(name);
    missed := engine.GetMaterial(other);
    mesh := engine.GetMesh(name);
  }
}
