# .skin multi-submesh importer — decoder model

This project models the binary reader of the Blender add-on that imports
`.skin` multi-submesh model files (`skin_imp.py`). The file is a
little-endian stream without magic number, index or padding. It holds a
header (one byte, three words, a submesh count) and then, for every submesh,
a length-prefixed name, vertex, face-index, UV and normal arrays, some
reserved fields, a list of materials, a list of 16-bit material ids and four
reserved trailing words. Every material holds four opaque colour words, an
alpha, a flag and four length-prefixed names.

The model has five modules:

- `LittleEndian` — bytes, `u16`/`u32`, and little-endian composition of
  bytes into integers (what `struct.unpack("<H"/"<I")` does), with the
  inverse packing and both round trips.
- `SkinFormat` — the decoded records (`Material`, `Submesh`, `Model`), the
  decoder of each part of the layout as a function over the bytes that
  remain in the file (returning the item and the bytes after it, or `None`
  when a fixed-width read runs short), and an encoder that writes a record
  in the documented layout.
- `SkinProofs` — what those decoders promise: encoding then decoding gives
  the record back with the cursor just past it; a successful decode consumed
  exactly the documented encoding of what it returned; counts, byte
  consumption, face grouping, and failure on a file cut short anywhere.
- `SkinReader` — the importer's reading code as it runs: a `Reader` object
  holding the file's bytes and the position every read advances, and the
  `read_material` / `read_submesh` / `read_file` procedures as methods that
  read field by field and build their lists with append loops. Each method
  is proved to return exactly what the matching `SkinFormat` decoder
  returns, and to leave the position at the end of the file when it fails.
- `SkinImport` — the consumer-side decisions that need no Blender: the
  default names, when the UV and normal layers apply, and which material
  slot each face ends up on.

What the code does at the edges of the format, and the model with it:

- Face grouping, `raw[i:i+3] for i in range(0, n, 3)`, keeps a trailing
  group of one or two indices. With 7 indices the model yields three faces,
  the last `[raw[6]]`, and the face count used for material ids counts it.
- A length-prefixed name never fails by itself: `f.read(n)` returns fewer
  bytes at the end of the file. The whole decode still fails, because fixed
  reads always follow (at the latest the 16-byte tail of the submesh); this
  is proved as `SkinProofs.TruncatedModelFails`.
- No count is checked against the bytes that remain before its array is
  read: a huge count fails on the short read that follows it, and the model
  does the same.
- A failed fixed read leaves the reader at the end of the file, since
  Python's `f.read(n)` has consumed everything left before `struct.unpack`
  raises.

## Model

| member | source | states |
|---|---|---|
| `LittleEndian.LeBytesOfValue` | skin_imp.py:156 | every byte string is the little-endian encoding of the integer it denotes, so decoding a field never loses bytes |
| `LittleEndian.UnpackPack` | skin_imp.py:171 | unpacking packed 16- or 32-bit words gives the words back in order |
| `LittleEndian.PackUnpack` | skin_imp.py:171 | packing the unpacked words of a whole number of fields gives the bytes back |
| `SkinFormat.Take` | skin_imp.py:39 | a fixed read of n bytes succeeds exactly when n bytes remain, and then splits the input into those n bytes and the rest |
| `SkinFormat.TakeUpTo` | skin_imp.py:49 | `f.read(n)` returns n bytes when that many remain, otherwise everything left, and comes back short only at the end of the file |
| `SkinFormat.U8` | skin_imp.py:45 | a byte field fails exactly on an empty remainder, else yields the first byte and advances by one |
| `SkinFormat.U32` | skin_imp.py:48 | a u32 field fails exactly when fewer than 4 bytes remain, else yields their little-endian value and advances by four |
| `SkinFormat.Str` | skin_imp.py:48-49 | a name fails only when its length field is short; it then holds at most the declared length, short only when nothing follows |
| `SkinFormat.Vec3s` | skin_imp.py:164-165 | the flat f32 array becomes count triples, entry i being words 3i, 3i+1, 3i+2 |
| `SkinFormat.Vec2s` | skin_imp.py:181-182 | the flat f32 array becomes count pairs, entry i being words 2i, 2i+1 |
| `SkinFormat.GroupFaces` | skin_imp.py:173 | n raw indices give ceil(n/3) faces; face i is the slice starting at 3i; all but the last have three indices, the last one to three |
| `SkinFormat.Vec3Array` | skin_imp.py:159-165 | a vertex or normal section holds exactly as many triples as its count word says |
| `SkinFormat.Vec2Array` | skin_imp.py:175-182 | a UV section holds exactly as many pairs as its count word says |
| `SkinFormat.U32Array` | skin_imp.py:167-171 | a face-index section holds exactly as many indices as its count word says |
| `SkinFormat.U16Array` | skin_imp.py:204-208 | a material-id section holds exactly as many u16 ids as its count word says |
| `SkinFormat.DecodeMaterial` | skin_imp.py:19-74 | a material read consumes 37 bytes of fixed fields plus the bytes of its four names, and nothing else |
| `SkinFormat.Repeat` | skin_imp.py:199-202 | reading n items one after another yields a list of exactly n items, or no list at all |
| `SkinFormat.MaterialArray` | skin_imp.py:197-202 | the material list holds exactly `material_count` materials, the count being the first word |
| `SkinFormat.DecodeTail` | skin_imp.py:210-211 | the tail fails exactly when fewer than 16 bytes remain, and otherwise consumes exactly 16 |
| `SkinFormat.DecodeSubmesh` | skin_imp.py:155-211 | a decoded submesh has its faces grouped by threes, only the last group possibly shorter |
| `SkinFormat.DecodeModel` | skin_imp.py:268-276 | a decoded model needs at least 17 bytes and holds exactly `submesh_count` submeshes, the count being the word at bytes 13-16 |
| `SkinProofs.FlattenGroupFaces` | skin_imp.py:173 | concatenating the faces gives back the raw index array, in order |
| `SkinProofs.GroupFacesFlatten` | skin_imp.py:173 | grouping the concatenation of faces shaped as grouping makes them gives the same faces back |
| `SkinProofs.GroupSevenIndices` | skin_imp.py:173 | seven indices make three faces, the last holding only the seventh index |
| `SkinProofs.ShortFixedReadFails` | skin_imp.py:39-45 | a fixed-width field, and every part that starts with one (arrays, materials, the material list, the tail, a submesh), fails when fewer bytes remain than its width; a model fails on fewer than its 17 header bytes |
| `SkinProofs.StrLength` | skin_imp.py:48-61 | a zero length gives the empty name and consumes nothing after the length field; otherwise the name is the next `length` bytes, or all that remain |
| `SkinProofs.U32Put` | skin_imp.py:48 | a u32 written little-endian reads back as the same value, with the cursor just past it |
| `SkinProofs.U32Exact` | skin_imp.py:48 | a u32 read consumed exactly the little-endian encoding of the value it returned |
| `SkinProofs.StrPut` | skin_imp.py:48-49 | a name written with its length reads back whole, with the cursor just past it |
| `SkinProofs.StrExact` | skin_imp.py:48-49 | a name followed by more bytes was read whole: the input is its length field and its bytes |
| `SkinProofs.PutStrFields` | skin_imp.py:156-157 | the length field of a written name holds its length and the name's bytes follow it |
| `SkinProofs.Vec3ArrayPut` | skin_imp.py:159-165 | a vertex (or normal) array written with its count reads back as the same triples in order |
| `SkinProofs.Vec3ArrayExact` | skin_imp.py:159-165 | a decoded vertex array has exactly its declared count of triples, and the bytes consumed are its documented encoding |
| `SkinProofs.Vec2ArrayPut` | skin_imp.py:175-182 | a UV array written with its count reads back as the same pairs in order |
| `SkinProofs.Vec2ArrayExact` | skin_imp.py:175-182 | a decoded UV array has exactly its declared count of pairs, and the bytes consumed are its documented encoding |
| `SkinProofs.U32ArrayPut` | skin_imp.py:167-171 | a face-index array written with its count reads back unchanged |
| `SkinProofs.U32ArrayExact` | skin_imp.py:167-171 | a decoded face-index array has exactly its declared count of indices, and the bytes consumed are its encoding |
| `SkinProofs.U16ArrayPut` | skin_imp.py:204-208 | a material-id array written with its count reads back unchanged |
| `SkinProofs.U16ArrayExact` | skin_imp.py:204-208 | a decoded material-id array has exactly its declared count of u16 ids, and the bytes consumed are its encoding |
| `SkinProofs.TailPut` | skin_imp.py:210-211 | the four reserved trailing words read back unchanged |
| `SkinProofs.TailExact` | skin_imp.py:210-211 | reading the tail consumed exactly the encoding of the four words it returned |
| `SkinProofs.MaterialPut` | skin_imp.py:19-74 | a material written in the documented field order reads back as the same record, cursor just past it |
| `SkinProofs.MaterialExact` | skin_imp.py:19-74 | a material followed by more bytes consumed exactly its documented encoding, fields in the documented order |
| `SkinProofs.MaterialsPut` | skin_imp.py:197-202 | a list of materials written in order reads back as the same list, in file order |
| `SkinProofs.MaterialsExact` | skin_imp.py:197-202 | n materials decoded (with bytes after them) are exactly n records, and the bytes consumed are their encodings in order |
| `SkinProofs.SubmeshPut` | skin_imp.py:155-211 | a submesh written in the documented layout reads back as the same record, reserved fields included, cursor just past it |
| `SkinProofs.SubmeshExact` | skin_imp.py:155-211 | a decoded submesh is one the format can carry and consumed exactly its documented encoding; every array holds its declared count |
| `SkinProofs.SubmeshesPut` | skin_imp.py:274-276 | a list of submeshes written in order reads back as the same list, in file order |
| `SkinProofs.SubmeshesExact` | skin_imp.py:274-276 | n submeshes decoded are exactly n records, and the bytes consumed are their encodings in file order |
| `SkinProofs.ModelPut` | skin_imp.py:268-276 | a model written in the documented layout decodes to the same record, reserved header fields included, cursor just past it |
| `SkinProofs.ModelExact` | skin_imp.py:268-276 | a decoded model consumed exactly its documented encoding |
| `SkinProofs.ModelHeader` | skin_imp.py:269-276 | the model is the header byte, three little-endian words and the count in the first 17 bytes, then exactly `count` submeshes from byte 17 on |
| `SkinProofs.TruncatedModelFails` | skin_imp.py:268-276 | a file cut short anywhere inside a model's encoding yields no model |
| `SkinProofs.ModelExtends` | skin_imp.py:268-276 | bytes after a decodable model do not change the model read; they only follow it |
| `SkinProofs.ProperPrefixFails` | skin_imp.py:268-276 | when a model ends exactly at the end of the file, no shorter prefix of the file holds a model |
| `SkinReader.Reader.constructor` | skin_imp.py:268 | a freshly opened file is positioned at its first byte |
| `SkinReader.Reader.Read` | skin_imp.py:49 | `f.read(n)` returns what `TakeUpTo` says and advances the position by as many bytes, never past the end |
| `SkinReader.Reader.ReadExactly` | skin_imp.py:39 | a read handed to `struct.unpack` fails exactly when fewer than n bytes remain, leaving the position at the end |
| `SkinReader.ReadU8` | skin_imp.py:45 | `struct.unpack("<B", f.read(1))` agrees with `U8` on the bytes left |
| `SkinReader.ReadU32` | skin_imp.py:41 | `struct.unpack("<I", f.read(4))` (and `"<f"` as bits) agrees with `U32` on the bytes left |
| `SkinReader.ReadWords` | skin_imp.py:39 | k words unpacked from one read of 4k bytes: fails exactly when 4k bytes do not remain |
| `SkinReader.Triples` | skin_imp.py:164-165 | the vertex and normal append loop builds exactly the triples `Vec3s` gives, in order |
| `SkinReader.Pairs` | skin_imp.py:181-182 | the UV append loop builds exactly the pairs `Vec2s` gives, in order |
| `SkinReader.ReadName` | skin_imp.py:48-49 | a length-prefixed name read agrees with `Str` on the bytes left |
| `SkinReader.ReadMaterial` | skin_imp.py:19-74 | `read_material` agrees with `DecodeMaterial`: same record or failure, same position after it |
| `SkinReader.ReadVec3Array` | skin_imp.py:159-165 | the vertex append loop produces the triples `Vec3Array` decodes, in order |
| `SkinReader.ReadVec2Array` | skin_imp.py:175-182 | the UV append loop produces the pairs `Vec2Array` decodes, in order |
| `SkinReader.ReadU32Array` | skin_imp.py:167-171 | the face-index read agrees with `U32Array` |
| `SkinReader.ReadU16Array` | skin_imp.py:204-208 | the material-id read agrees with `U16Array` |
| `SkinReader.ReadMaterials` | skin_imp.py:197-202 | `material_count` and then the material loop produce the materials `MaterialArray` decodes, in file order |
| `SkinReader.ReadMaterialList` | skin_imp.py:200-202 | the loop calling `read_material` n times agrees with `Repeat` over `DecodeMaterial`: the same n materials in file order, or failure with the position at the end |
| `SkinReader.ReadTail` | skin_imp.py:210-211 | `struct.unpack("<IIII", f.read(16))` agrees with `DecodeTail` |
| `SkinReader.ReadSubmesh` | skin_imp.py:155-211 | the parsing half of `read_submesh` agrees with `DecodeSubmesh`, faces grouped by threes |
| `SkinReader.ReadSubmeshes` | skin_imp.py:275-276 | the loop calling `read_submesh` n times agrees with `Repeat` over `DecodeSubmesh`: the same n submeshes in file order, or failure with the position at the end |
| `SkinReader.ReadFile` | skin_imp.py:264-278 | `read_file` returns a model exactly when `DecodeModel` succeeds on the file's bytes, and then the same model |
| `SkinImport.DecodedSubmeshName` | skin_imp.py:156-157 | a submesh is named "Submesh" when its name length field is 0, otherwise by the bytes after that field |
| `SkinImport.SubmeshName` | skin_imp.py:157 | a submesh is created under a non-empty name: "Submesh" exactly when its name is empty or that text, otherwise its own name |
| `SkinImport.MaterialName` | skin_imp.py:82 | a material is created under a non-empty name: "ImportedMaterial" exactly when its name is empty or that text, otherwise its own name |
| `SkinImport.Applies` | skin_imp.py:219-227 | a UV or normal list applies only to a mesh with vertices, and then holds one entry per vertex |
| `SkinImport.NewMesh` | skin_imp.py:214-216 | a new mesh has the given name, vertices and faces, one polygon per face on slot 0, and no UV or normal layer |
| `SkinImport.ApplyUvs` | skin_imp.py:219-224 | the UV layer is added exactly when the UVs are non-empty and one per vertex; otherwise nothing changes |
| `SkinImport.ApplyNormals` | skin_imp.py:227-232 | custom normals are set exactly when they are non-empty and one per vertex; otherwise nothing changes |
| `SkinImport.LayerStepsIndependent` | skin_imp.py:218-232 | the UV and normal steps commute, are idempotent, and leave name, geometry, slots and face materials unchanged |
| `SkinImport.AssignedMaterialsAt` | skin_imp.py:244-249 | with one id per face, face i gets `matids[i]` when it is below the slot count; every other face keeps its index |
| `SkinImport.AssignedMaterials` | skin_imp.py:244-249 | the material-id step keeps one index per face; each face keeps its index or takes its own id, and then only an id naming an existing slot |
| `SkinImport.AssignedMaterialsInRange` | skin_imp.py:244-249 | if every face was on an existing slot, every face still is after the assignment |
| `SkinImport.AssignedMaterialsIdempotent` | skin_imp.py:244-249 | assigning the same ids twice is the same as assigning them once |
| `SkinImport.AssignMaterialIndices` | skin_imp.py:245-249 | the loop over the polygons sets their material indices in place to what `AssignedMaterials` gives |
| `SkinImport.ImportSubmesh` | skin_imp.py:213-249 | the imported mesh carries the default-aware name, the geometry, the UV and normal layers exactly when they apply, one slot per material |
| `SkinImport.ImportedFaceMaterials` | skin_imp.py:239-249 | after import a face is on slot `matids[i]` exactly when the ids match the face count and the id names a slot, otherwise on slot 0 |

## Left out

- The second reader `skin_imp_2,79b.py` (an older Blender version of the same importer) is not part of this model.
- UTF-8 decoding with `errors="ignore"`: names are kept as the raw bytes read.
- SkinImport.MaterialName: applies the "ImportedMaterial" default to an empty byte string, while the code applies it to an empty decoded text, so a name made only of invalid UTF-8 bytes is not defaulted in the model.
- Floating-point interpretation of vertices, UVs, normals and alpha: each f32 is kept as its 32-bit pattern.
- Blender mesh and object creation, scene linking and the active object: host calls; only their outcome on the requested name, geometry, layers, slots and face materials is modelled; Blender may store the object under a different name (a ".001" suffix on a clash, a length cap).
- The per-loop UV copy through `mesh.loops` and its `IndexError` on a face index beyond the UV list: host data structures; the model records which UV list the layer receives.
- Material node-graph construction, image loading and the placeholder image made when loading fails: host API and file-system I/O.
- `normals_split_custom_set_from_vertices` and the exception it may swallow: a foreign call; the model records which normals are handed to it.
- Partial import: `read_submesh` creates and links each submesh's Blender object and materials (skin_imp.py:213-249) before the loop in `read_file` (skin_imp.py:275-276) reads the next submesh, so a file that fails inside submesh k leaves the first k submeshes in the scene and then raises; `SkinReader.ReadFile` and `SkinFormat.DecodeModel` give no model in that case and do not record the objects already created.
- Opening the file and `os.path.dirname`: I/O; the input is the file's contents as a byte sequence.
- Operator registration and the import menu entry: host glue.
- Memory use of a huge declared count: the model only records that the short read that follows fails.
