/** What the importer does with a decoded submesh before and while handing it
    to Blender, reduced to the decisions it makes: the default names, whether
    the UV and normal layers are applied, and which material slot each face
    gets. The mesh is described by the data those decisions produce. */
module SkinImport {
  import opened LittleEndian
  import opened SkinFormat
  import SkinProofs

  /** The bytes of an ASCII text. */
  function Ascii(t: string): (b: seq<byte>)
    requires forall i :: 0 <= i < |t| ==> t[i] as int < 0x80
    ensures |b| == |t| && forall i :: 0 <= i < |t| ==> b[i] == t[i] as int
  {
    seq(|t|, i requires 0 <= i < |t| => t[i] as int)
  }

  const SubmeshDefaultName: seq<byte> := Ascii("Submesh")
  const MaterialDefaultName: seq<byte> := Ascii("ImportedMaterial")

  /** The name a submesh is created under: "Submesh" when the name field
      was empty. */
  function SubmeshName(name: seq<byte>): (r: seq<byte>)
    ensures |r| > 0
    ensures r == SubmeshDefaultName <==> (name == [] || name == SubmeshDefaultName)
    ensures name != [] ==> r == name
  {
    if |name| > 0 then name else SubmeshDefaultName
  }

  /** The name a material is created under: "ImportedMaterial" when its
      decoded name is empty. */
  function MaterialName(m: Material): (r: seq<byte>)
    ensures |r| > 0
    ensures r == MaterialDefaultName <==> (m.name == [] || m.name == MaterialDefaultName)
    ensures m.name != [] ==> r == m.name
  {
    if |m.name| > 0 then m.name else MaterialDefaultName
  }

  /** A submesh is named "Submesh" when its name length field is 0, and
      otherwise by the bytes that follow that field. */
  lemma DecodedSubmeshName(s: seq<byte>)
    requires DecodeSubmesh(s).Some?
    ensures var len := LeValue(s[..4]);
      var name := SubmeshName(DecodeSubmesh(s).value.item.name);
      && (len == 0 ==> name == SubmeshDefaultName)
      && (len > 0 ==> 4 + len <= |s| && name == s[4..4 + len])
  {
    var name, r1, _, _, _, _, _, _, _, _, _, _, _, _, _, _, _, _, _, _, _, _, _, _ := SkinProofs.SubmeshUnfold(s);
    SkinProofs.StrExact(s);
    SkinProofs.PutStrFields(name, r1);
  }

  /** A UV or normal list is applied only when it is non-empty and has one
      entry per vertex. */
  predicate Applies<T>(layer: seq<T>, vertexCount: nat)
    ensures Applies(layer, vertexCount) ==> vertexCount > 0 && |layer| == vertexCount
  {
    |layer| > 0 && |layer| == vertexCount
  }

  /** The parts of the Blender mesh and object the importer decides on. */
  datatype Mesh = Mesh(
    name: seq<byte>,
    vertices: seq<Vec3>,
    faces: seq<seq<u32>>,
    uvLayer: Option<seq<Vec2>>,
    customNormals: Option<seq<Vec3>>,
    materialSlots: seq<seq<byte>>,
    faceMaterials: seq<nat>)

  /** bpy.data.meshes.new and from_pydata: one polygon per face, every
      polygon on material slot 0, no UV layer, no custom normals. */
  function NewMesh(name: seq<byte>, vertices: seq<Vec3>, faces: seq<seq<u32>>): (mesh: Mesh)
    ensures mesh.name == name && mesh.vertices == vertices && mesh.faces == faces
    ensures mesh.uvLayer.None? && mesh.customNormals.None? && mesh.materialSlots == []
    ensures |mesh.faceMaterials| == |faces| && forall i :: 0 <= i < |faces| ==> mesh.faceMaterials[i] == 0
  {
    Mesh(name, vertices, faces, None, None, [], seq(|faces|, i => 0))
  }

  /** The UV step: a "UVMap" layer holding the UVs when they apply, and
      otherwise no change at all. */
  function ApplyUvs(mesh: Mesh, uvs: seq<Vec2>): (m': Mesh)
    ensures Applies(uvs, |mesh.vertices|) ==> m' == mesh.(uvLayer := Some(uvs))
    ensures !Applies(uvs, |mesh.vertices|) ==> m' == mesh
  {
    if Applies(uvs, |mesh.vertices|) then mesh.(uvLayer := Some(uvs)) else mesh
  }

  /** The custom-normal step, under the same rule as the UVs. */
  function ApplyNormals(mesh: Mesh, normals: seq<Vec3>): (m': Mesh)
    ensures Applies(normals, |mesh.vertices|) ==> m' == mesh.(customNormals := Some(normals))
    ensures !Applies(normals, |mesh.vertices|) ==> m' == mesh
  {
    if Applies(normals, |mesh.vertices|) then mesh.(customNormals := Some(normals)) else mesh
  }

  /** The UV and normal steps touch only their own layer: they can run in
      either order, running one twice changes nothing more, and the name,
      geometry, material slots and face materials are left as they were. */
  lemma LayerStepsIndependent(mesh: Mesh, uvs: seq<Vec2>, normals: seq<Vec3>)
    ensures ApplyNormals(ApplyUvs(mesh, uvs), normals) == ApplyUvs(ApplyNormals(mesh, normals), uvs)
    ensures ApplyUvs(ApplyUvs(mesh, uvs), uvs) == ApplyUvs(mesh, uvs)
    ensures ApplyNormals(ApplyNormals(mesh, normals), normals) == ApplyNormals(mesh, normals)
    ensures var m' := ApplyNormals(ApplyUvs(mesh, uvs), normals);
      && m'.name == mesh.name && m'.vertices == mesh.vertices && m'.faces == mesh.faces
      && m'.materialSlots == mesh.materialSlots && m'.faceMaterials == mesh.faceMaterials
  {
  }

  /** The material-id step over the polygons' material indices: it applies
      only when there are ids, one per polygon, and then a polygon takes its
      id when the id names an existing slot and keeps its index otherwise. */
  function AssignedMaterials(prior: seq<nat>, matids: seq<u16>, slotCount: nat): (after: seq<nat>)
    ensures |after| == |prior|
    ensures forall i :: 0 <= i < |after| ==> after[i] == prior[i] || (i < |matids| && after[i] == matids[i] as nat < slotCount)
  {
    if |matids| > 0 && |matids| == |prior| then
      seq(|prior|, i requires 0 <= i < |prior| => if matids[i] < slotCount then matids[i] as nat else prior[i])
    else prior
  }

  /** Face by face: the id when the step applies and the id is in range,
      the earlier index otherwise. */
  lemma AssignedMaterialsAt(prior: seq<nat>, matids: seq<u16>, slotCount: nat)
    ensures var after := AssignedMaterials(prior, matids, slotCount);
      && |after| == |prior|
      && (forall i :: 0 <= i < |prior| ==>
            after[i] == if |matids| == |prior| && matids[i] < slotCount then matids[i] else prior[i])
  {
  }

  /** The step keeps every polygon on an existing slot. */
  lemma AssignedMaterialsInRange(prior: seq<nat>, matids: seq<u16>, slotCount: nat)
    requires forall i :: 0 <= i < |prior| ==> prior[i] < slotCount
    ensures var after := AssignedMaterials(prior, matids, slotCount);
      forall i :: 0 <= i < |after| ==> after[i] < slotCount
  {
  }

  /** Applying the same ids twice is the same as applying them once. */
  lemma AssignedMaterialsIdempotent(prior: seq<nat>, matids: seq<u16>, slotCount: nat)
    ensures var once := AssignedMaterials(prior, matids, slotCount);
      AssignedMaterials(once, matids, slotCount) == once
  {
  }

  /** The loop over mesh.polygons that sets material_index in place. */
  method AssignMaterialIndices(polygons: array<nat>, matids: seq<u16>, slotCount: nat)
    modifies polygons
    ensures polygons[..] == AssignedMaterials(old(polygons[..]), matids, slotCount)
  {
    if |matids| > 0 && |matids| == polygons.Length {
      for i := 0 to polygons.Length
        invariant forall j :: 0 <= j < i ==>
          polygons[j] == if matids[j] < slotCount then matids[j] as nat else old(polygons[j])
        invariant forall j :: i <= j < polygons.Length ==> polygons[j] == old(polygons[j])
      {
        var index := matids[i];
        if index < slotCount {
          polygons[i] := index;
        }
      }
    }
  }

  /** The Blender side of read_submesh: create the mesh under the submesh's
      name, add the UV layer and the custom normals when they apply, one
      material slot per material, then assign the material ids. */
  function ImportSubmesh(sm: Submesh): (mesh: Mesh)
    ensures mesh.name == SubmeshName(sm.name) && mesh.vertices == sm.vertices && mesh.faces == sm.faces
    ensures mesh.uvLayer == if Applies(sm.uvs, |sm.vertices|) then Some(sm.uvs) else None
    ensures mesh.customNormals == if Applies(sm.normals, |sm.vertices|) then Some(sm.normals) else None
    ensures |mesh.materialSlots| == |sm.materials|
    ensures forall i :: 0 <= i < |sm.materials| ==> mesh.materialSlots[i] == MaterialName(sm.materials[i])
    ensures |mesh.faceMaterials| == |sm.faces|
  {
    var m0 := NewMesh(SubmeshName(sm.name), sm.vertices, sm.faces);
    var m1 := ApplyNormals(ApplyUvs(m0, sm.uvs), sm.normals);
    var slots := seq(|sm.materials|, i requires 0 <= i < |sm.materials| => MaterialName(sm.materials[i]));
    var m2 := m1.(materialSlots := slots);
    m2.(faceMaterials := AssignedMaterials(m2.faceMaterials, sm.matids, |slots|))
  }

  /** After import every polygon is on slot 0 or on an existing slot, and it
      is on slot matids[i] exactly when the ids apply and that slot exists. */
  lemma ImportedFaceMaterials(sm: Submesh)
    ensures var mesh := ImportSubmesh(sm);
      forall i :: 0 <= i < |mesh.faceMaterials| ==>
        && (mesh.faceMaterials[i] == 0 || mesh.faceMaterials[i] < |sm.materials|)
        && (|sm.matids| == |sm.faces| && sm.matids[i] < |sm.materials| ==> mesh.faceMaterials[i] == sm.matids[i])
        && (!(|sm.matids| == |sm.faces| && sm.matids[i] < |sm.materials|) ==> mesh.faceMaterials[i] == 0)
  {
    var zeros := NewMesh(SubmeshName(sm.name), sm.vertices, sm.faces).faceMaterials;
    AssignedMaterialsAt(zeros, sm.matids, |sm.materials|);
  }
}
