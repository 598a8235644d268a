/** The .skin multi-submesh file layout: the decoded records, the decoder of
    each part written as a function over the bytes that remain in the file,
    and the encoder that writes a record in the documented layout.

    A decoder takes the bytes from the current file position to the end and
    returns None when a fixed-width read runs short (struct.unpack raising on
    a short f.read), or the decoded item with the bytes that follow it.
    Encoders take the bytes that are to follow, so that encoding a record
    "onto" its continuation composes without reassociating concatenations. */
module SkinFormat {
  import opened LittleEndian

  datatype Option<+T> = None | Some(value: T) {
    predicate IsFailure() { None? }
    function PropagateFailure<U>(): Option<U> requires None? { None }
    function Extract(): T requires Some? { value }
  }

  /** An item read from the front of a byte string, and the bytes after it. */
  datatype Parsed<+T> = Parsed(item: T, rest: seq<byte>)

  /** Three f32 fields (a position or a normal), each kept as its bit pattern. */
  datatype Vec3 = Vec3(x: u32, y: u32, z: u32)

  /** Two f32 fields (a texture coordinate), each kept as its bit pattern. */
  datatype Vec2 = Vec2(u: u32, v: u32)

  /** material_t. The colours, alpha and flag are opaque; alpha is an f32
      kept as its bit pattern. Names are the bytes read from the file. */
  datatype Material = Material(
    color1: u32, color2: u32, alpha: u32, color3: u32, color4: u32, flag: byte,
    texture1: seq<byte>, texture2: seq<byte>, texture3: seq<byte>, name: seq<byte>)

  /** The four reserved words that end a submesh_t. */
  datatype Tail = Tail(t1: u32, t2: u32, t3: u32, t4: u32)

  /** submesh_t. `faces` is the face-index array grouped by threes, as the
      importer hands it to the mesh builder; `name` is the bytes read (the
      "Submesh" default is applied by the consumer). */
  datatype Submesh = Submesh(
    name: seq<byte>,
    vertices: seq<Vec3>,
    faces: seq<seq<u32>>,
    uvFlag: byte, uvs: seq<Vec2>,
    normalFlag: byte, normals: seq<Vec3>,
    extraFlag: byte, reserved: u32,
    materials: seq<Material>,
    matids: seq<u16>,
    tail: Tail)

  /** The whole file: a header byte, three header words, the submeshes. */
  datatype Model = Model(headerByte: byte, header1: u32, header2: u32, header3: u32, submeshes: seq<Submesh>)

  // ---------------------------------------------------------------------
  // Primitive reads

  /** f.read(n) followed by an unpack that needs exactly n bytes. */
  function Take(s: seq<byte>, n: nat): (r: Option<Parsed<seq<byte>>>)
    ensures r.Some? <==> n <= |s|
    ensures r.Some? ==> |r.value.item| == n && r.value.item + r.value.rest == s
  {
    if n <= |s| then Some(Parsed(s[..n], s[n..])) else None
  }

  /** f.read(n) alone: up to n bytes, fewer when the file ends first. */
  function TakeUpTo(s: seq<byte>, n: nat): (r: Parsed<seq<byte>>)
    ensures r.item + r.rest == s
    ensures |r.item| == if n <= |s| then n else |s|
    ensures |r.item| < n ==> r.rest == []
  {
    if n <= |s| then Parsed(s[..n], s[n..]) else Parsed(s, [])
  }

  /** struct.unpack("<B", f.read(1)). */
  function U8(s: seq<byte>): (r: Option<Parsed<byte>>)
    ensures r.Some? <==> 1 <= |s|
    ensures r.Some? ==> r.value.item == s[0] && r.value.rest == s[1..]
  {
    if |s| < 1 then None else Some(Parsed(s[0], s[1..]))
  }

  /** struct.unpack("<I", f.read(4)): the first byte is the least significant. */
  function U32(s: seq<byte>): (r: Option<Parsed<u32>>)
    ensures r.Some? <==> 4 <= |s|
    ensures r.Some? ==> r.value.rest == s[4..] && r.value.item == LeValue(s[..4])
  {
    if |s| < 4 then None
    else
      Le4(s[..4]);
      Some(Parsed(s[0] as int + 0x100 * s[1] as int + 0x1_0000 * s[2] as int + 0x100_0000 * s[3] as int, s[4..]))
  }

  /** A length-prefixed name: a u32 byte count, then f.read of that many bytes,
      which never fails but may come back short at the end of the file. */
  function Str(s: seq<byte>): (r: Option<Parsed<seq<byte>>>)
    ensures r.Some? <==> 4 <= |s|
    ensures r.Some? ==> var n := U32(s).value.item;
      r.value.item + r.value.rest == s[4..] && |r.value.item| <= n &&
      (|r.value.item| < n ==> r.value.rest == [])
  {
    var n :- U32(s);
    Some(TakeUpTo(n.rest, n.item))
  }

  /** struct.unpack("<" + "I" * n, b). */
  function Unpack32(b: seq<byte>): (ws: seq<u32>)
    requires |b| % 4 == 0
    ensures |ws| == |b| / 4
  {
    Pow256Widths();
    Unpack(b, 4)
  }

  /** struct.unpack("<" + "H" * n, b). */
  function Unpack16(b: seq<byte>): (hs: seq<u16>)
    requires |b| % 2 == 0
    ensures |hs| == |b| / 2
  {
    Pow256Widths();
    Unpack(b, 2)
  }

  function Pack32(ws: seq<u32>): (b: seq<byte>)
    ensures |b| == 4 * |ws|
  {
    Pow256Widths();
    Pack(ws, 4)
  }

  function Pack16(hs: seq<u16>): (b: seq<byte>)
    ensures |b| == 2 * |hs|
  {
    Pow256Widths();
    Pack(hs, 2)
  }

  // ---------------------------------------------------------------------
  // Grouping of flat f32 / u32 arrays

  /** Consecutive triples of a flat array (the vertex and normal loops). */
  function Vec3s(ws: seq<u32>): (vs: seq<Vec3>)
    requires |ws| % 3 == 0
    ensures |vs| == |ws| / 3
    ensures forall i :: 0 <= i < |vs| ==> vs[i] == Vec3(ws[3 * i], ws[3 * i + 1], ws[3 * i + 2])
  {
    if ws == [] then []
    else
      var vs' := Vec3s(ws[3..]);
      assert forall i :: 0 <= i < |vs'| ==> ws[3..][3 * i] == ws[3 * (i + 1)];
      [Vec3(ws[0], ws[1], ws[2])] + vs'
  }

  /** Consecutive pairs of a flat array (the UV loop). */
  function Vec2s(ws: seq<u32>): (vs: seq<Vec2>)
    requires |ws| % 2 == 0
    ensures |vs| == |ws| / 2
    ensures forall i :: 0 <= i < |vs| ==> vs[i] == Vec2(ws[2 * i], ws[2 * i + 1])
  {
    if ws == [] then []
    else
      var vs' := Vec2s(ws[2..]);
      assert forall i :: 0 <= i < |vs'| ==> ws[2..][2 * i] == ws[2 * (i + 1)];
      [Vec2(ws[0], ws[1])] + vs'
  }

  function Flatten3(vs: seq<Vec3>): (ws: seq<u32>)
    ensures |ws| == 3 * |vs|
  {
    if vs == [] then [] else [vs[0].x, vs[0].y, vs[0].z] + Flatten3(vs[1..])
  }

  function Flatten2(vs: seq<Vec2>): (ws: seq<u32>)
    ensures |ws| == 2 * |vs|
  {
    if vs == [] then [] else [vs[0].u, vs[0].v] + Flatten2(vs[1..])
  }

  /** The face list built from the raw index array: the slices
      raw[i:i+3] for i in range(0, n, 3). A trailing group of one or two
      indices is kept. */
  function GroupFaces(raw: seq<u32>): (faces: seq<seq<u32>>)
    ensures |faces| == (|raw| + 2) / 3
    ensures forall i :: 0 <= i < |faces| ==>
      1 <= |faces[i]| <= 3 && 3 * i + |faces[i]| <= |raw| && faces[i] == raw[3 * i .. 3 * i + |faces[i]|]
    ensures forall i :: 0 <= i < |faces| - 1 ==> |faces[i]| == 3
  {
    seq((|raw| + 2) / 3, i requires 0 <= i < (|raw| + 2) / 3 =>
      raw[3 * i .. if 3 * i + 3 <= |raw| then 3 * i + 3 else |raw|])
  }

  function Flatten(faces: seq<seq<u32>>): (raw: seq<u32>)
  {
    if faces == [] then [] else faces[0] + Flatten(faces[1..])
  }

  /** The shape GroupFaces produces: groups of three, the last of one to three. */
  predicate WellGrouped(faces: seq<seq<u32>>)
  {
    forall i :: 0 <= i < |faces| ==> 1 <= |faces[i]| <= 3 && (i < |faces| - 1 ==> |faces[i]| == 3)
  }

  // ---------------------------------------------------------------------
  // Decoders

  /** u32 count, then count * 3 f32 (vertices, and normals). */
  function Vec3Array(s: seq<byte>): (r: Option<Parsed<seq<Vec3>>>)
    ensures r.Some? ==> U32(s).Some? && |r.value.item| == U32(s).value.item
  {
    var n :- U32(s);
    var b :- Take(n.rest, 12 * n.item as int);
    var k: int := n.item;
    assert |b.item| == 4 * (3 * k);
    assert |b.item| % 4 == 0 && |b.item| / 4 == 3 * k;
    var ws := Unpack32(b.item);
    assert |ws| % 3 == 0 && |ws| / 3 == k;
    Some(Parsed(Vec3s(ws), b.rest))
  }

  /** u32 count, then count * 2 f32 (UVs). */
  function Vec2Array(s: seq<byte>): (r: Option<Parsed<seq<Vec2>>>)
    ensures r.Some? ==> U32(s).Some? && |r.value.item| == U32(s).value.item
  {
    var n :- U32(s);
    var b :- Take(n.rest, 8 * n.item as int);
    var k: int := n.item;
    assert |b.item| == 4 * (2 * k);
    assert |b.item| % 4 == 0 && |b.item| / 4 == 2 * k;
    var ws := Unpack32(b.item);
    assert |ws| % 2 == 0 && |ws| / 2 == k;
    Some(Parsed(Vec2s(ws), b.rest))
  }

  /** u32 count, then count u32 (the face-index array). */
  function U32Array(s: seq<byte>): (r: Option<Parsed<seq<u32>>>)
    ensures r.Some? ==> U32(s).Some? && |r.value.item| == U32(s).value.item
  {
    var n :- U32(s);
    var b :- Take(n.rest, 4 * n.item as int);
    assert |b.item| / 4 == n.item;
    Some(Parsed(Unpack32(b.item), b.rest))
  }

  /** u32 count, then count u16 (the material ids). */
  function U16Array(s: seq<byte>): (r: Option<Parsed<seq<u16>>>)
    ensures r.Some? ==> U32(s).Some? && |r.value.item| == U32(s).value.item
  {
    var n :- U32(s);
    var b :- Take(n.rest, 2 * n.item as int);
    assert |b.item| / 2 == n.item;
    Some(Parsed(Unpack16(b.item), b.rest))
  }

  /** read_material. */
  function DecodeMaterial(s: seq<byte>): (r: Option<Parsed<Material>>)
    ensures r.Some? ==> var m := r.value.item;
      |s| == 37 + |m.texture1| + |m.texture2| + |m.texture3| + |m.name| + |r.value.rest|
  {
    var c1 :- U32(s);
    var c2 :- U32(c1.rest);
    var alpha :- U32(c2.rest);
    var c3 :- U32(alpha.rest);
    var c4 :- U32(c3.rest);
    var flag :- U8(c4.rest);
    var t1 :- Str(flag.rest);
    var t2 :- Str(t1.rest);
    var t3 :- Str(t2.rest);
    var name :- Str(t3.rest);
    Some(Parsed(Material(c1.item, c2.item, alpha.item, c3.item, c4.item, flag.item,
                         t1.item, t2.item, t3.item, name.item), name.rest))
  }

  /** The list decoded after x: x in front of it, or no list when it failed. */
  function Prepend<T>(x: T, o: Option<Parsed<seq<T>>>): (r: Option<Parsed<seq<T>>>)
    ensures r.Some? <==> o.Some?
    ensures r.Some? ==> r.value.item == [x] + o.value.item && r.value.rest == o.value.rest
  {
    match o
    case None => None
    case Some(p) => Some(Parsed([x] + p.item, p.rest))
  }

  /** `for _ in range(n): items.append(read(f))`: n items decoded one after
      another, in file order; no list when any of them fails. */
  function Repeat<T>(decode: seq<byte> -> Option<Parsed<T>>, s: seq<byte>, n: nat): (r: Option<Parsed<seq<T>>>)
    ensures r.Some? ==> |r.value.item| == n
    decreases n
  {
    if n == 0 then Some(Parsed([], s))
    else
      match decode(s)
      case None => None
      case Some(p) => Prepend(p.item, Repeat(decode, p.rest, n - 1))
  }

  /** u32 material_count, then that many materials. */
  function MaterialArray(s: seq<byte>): (r: Option<Parsed<seq<Material>>>)
    ensures r.Some? ==> 4 <= |s| && |r.value.item| == LeValue(s[..4])
  {
    var n :- U32(s);
    Repeat(DecodeMaterial, n.rest, n.item)
  }

  /** The four reserved u32 at the end of a submesh. */
  function DecodeTail(s: seq<byte>): (r: Option<Parsed<Tail>>)
    ensures r.Some? <==> 16 <= |s|
    ensures r.Some? ==> r.value.rest == s[16..]
  {
    var a :- U32(s);
    var b :- U32(a.rest);
    var c :- U32(b.rest);
    var d :- U32(c.rest);
    Some(Parsed(Tail(a.item, b.item, c.item, d.item), d.rest))
  }

  /** The parsing half of read_submesh. */
  function DecodeSubmesh(s: seq<byte>): (r: Option<Parsed<Submesh>>)
    ensures r.Some? ==> WellGrouped(r.value.item.faces)
  {
    var name :- Str(s);
    var verts :- Vec3Array(name.rest);
    var faces :- U32Array(verts.rest);
    var uvFlag :- U8(faces.rest);
    var uvs :- Vec2Array(uvFlag.rest);
    var normalFlag :- U8(uvs.rest);
    var normals :- Vec3Array(normalFlag.rest);
    var extra :- U8(normals.rest);
    var reserved :- U32(extra.rest);
    var mats :- MaterialArray(reserved.rest);
    var ids :- U16Array(mats.rest);
    var tail :- DecodeTail(ids.rest);
    Some(Parsed(Submesh(name.item, verts.item, GroupFaces(faces.item), uvFlag.item, uvs.item,
                        normalFlag.item, normals.item, extra.item, reserved.item, mats.item,
                        ids.item, tail.item), tail.rest))
  }

  /** read_file: the header, then submesh_count submeshes. */
  function DecodeModel(s: seq<byte>): (r: Option<Parsed<Model>>)
    ensures r.Some? ==> 17 <= |s| && |r.value.item.submeshes| == LeValue(s[13..17])
  {
    var h :- U8(s);
    var a :- U32(h.rest);
    var b :- U32(a.rest);
    var c :- U32(b.rest);
    assert c.rest == s[13..];
    var n :- U32(c.rest);
    assert c.rest[..4] == s[13..17];
    var subs :- Repeat(DecodeSubmesh, n.rest, n.item);
    Some(Parsed(Model(h.item, a.item, b.item, c.item, subs.item), subs.rest))
  }

  // ---------------------------------------------------------------------
  // Encoders, in the documented layout

  const U32Limit: int := 0x1_0000_0000

  function Put8(x: byte, rest: seq<byte>): seq<byte>
  {
    [x] + rest
  }

  function Put32(x: u32, rest: seq<byte>): seq<byte>
  {
    [x % 0x100, x / 0x100 % 0x100, x / 0x1_0000 % 0x100, x / 0x100_0000] + rest
  }

  function PutStr(b: seq<byte>, rest: seq<byte>): seq<byte>
    requires |b| < U32Limit
  {
    Put32(|b|, b + rest)
  }

  function PutVec3Array(vs: seq<Vec3>, rest: seq<byte>): seq<byte>
    requires |vs| < U32Limit
  {
    Put32(|vs|, Pack32(Flatten3(vs)) + rest)
  }

  function PutVec2Array(vs: seq<Vec2>, rest: seq<byte>): seq<byte>
    requires |vs| < U32Limit
  {
    Put32(|vs|, Pack32(Flatten2(vs)) + rest)
  }

  function PutU32Array(ws: seq<u32>, rest: seq<byte>): seq<byte>
    requires |ws| < U32Limit
  {
    Put32(|ws|, Pack32(ws) + rest)
  }

  function PutU16Array(hs: seq<u16>, rest: seq<byte>): seq<byte>
    requires |hs| < U32Limit
  {
    Put32(|hs|, Pack16(hs) + rest)
  }

  predicate MaterialOk(m: Material)
  {
    |m.texture1| < U32Limit && |m.texture2| < U32Limit && |m.texture3| < U32Limit && |m.name| < U32Limit
  }

  function EncodeMaterial(m: Material, rest: seq<byte>): seq<byte>
    requires MaterialOk(m)
  {
    Put32(m.color1, Put32(m.color2, Put32(m.alpha, Put32(m.color3, Put32(m.color4,
    Put8(m.flag, PutStr(m.texture1, PutStr(m.texture2, PutStr(m.texture3, PutStr(m.name, rest))))))))))
  }

  function EncodeMaterials(ms: seq<Material>, rest: seq<byte>): seq<byte>
    requires forall i :: 0 <= i < |ms| ==> MaterialOk(ms[i])
  {
    if ms == [] then rest else EncodeMaterial(ms[0], EncodeMaterials(ms[1..], rest))
  }

  function PutTail(t: Tail, rest: seq<byte>): seq<byte>
  {
    Put32(t.t1, Put32(t.t2, Put32(t.t3, Put32(t.t4, rest))))
  }

  /** What the format can carry: every count fits its u32 field, and the
      faces are grouped as the decoder groups them. */
  predicate SubmeshOk(sm: Submesh)
  {
    && |sm.name| < U32Limit
    && |sm.vertices| < U32Limit
    && WellGrouped(sm.faces) && |Flatten(sm.faces)| < U32Limit
    && |sm.uvs| < U32Limit
    && |sm.normals| < U32Limit
    && |sm.materials| < U32Limit && (forall i :: 0 <= i < |sm.materials| ==> MaterialOk(sm.materials[i]))
    && |sm.matids| < U32Limit
  }

  function EncodeSubmesh(sm: Submesh, rest: seq<byte>): seq<byte>
    requires SubmeshOk(sm)
  {
    PutStr(sm.name, PutVec3Array(sm.vertices, PutU32Array(Flatten(sm.faces),
    Put8(sm.uvFlag, PutVec2Array(sm.uvs,
    Put8(sm.normalFlag, PutVec3Array(sm.normals,
    Put8(sm.extraFlag, Put32(sm.reserved,
    Put32(|sm.materials|, EncodeMaterials(sm.materials,
    PutU16Array(sm.matids, PutTail(sm.tail, rest)))))))))))))
  }

  function EncodeSubmeshes(subs: seq<Submesh>, rest: seq<byte>): seq<byte>
    requires forall i :: 0 <= i < |subs| ==> SubmeshOk(subs[i])
  {
    if subs == [] then rest else EncodeSubmesh(subs[0], EncodeSubmeshes(subs[1..], rest))
  }

  predicate ModelOk(m: Model)
  {
    |m.submeshes| < U32Limit && forall i :: 0 <= i < |m.submeshes| ==> SubmeshOk(m.submeshes[i])
  }

  function EncodeModel(m: Model, rest: seq<byte>): seq<byte>
    requires ModelOk(m)
  {
    Put8(m.headerByte, Put32(m.header1, Put32(m.header2, Put32(m.header3,
    Put32(|m.submeshes|, EncodeSubmeshes(m.submeshes, rest))))))
  }
}
