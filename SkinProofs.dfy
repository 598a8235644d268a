/** What the decoder promises: decoding the documented encoding of a record
    gives the record back with the cursor just past it, a successful decode
    consumed exactly the documented encoding of what it returned, and a file
    cut short anywhere yields no model. */
module SkinProofs {
  import opened LittleEndian
  import opened SkinFormat

  // ---------------------------------------------------------------------
  // Primitive fields

  lemma TakePut(b: seq<byte>, rest: seq<byte>)
    ensures Take(b + rest, |b|) == Some(Parsed(b, rest))
  {
    assert (b + rest)[..|b|] == b;
    assert (b + rest)[|b|..] == rest;
  }

  /** A fixed-width field with fewer bytes left than its width fails. */
  lemma ShortFixedReadFails(s: seq<byte>)
    ensures |s| < 1 ==> U8(s) == None
    ensures |s| < 4 ==> U32(s) == None && Str(s) == None
    ensures |s| < 4 ==> Vec3Array(s) == None && Vec2Array(s) == None && U32Array(s) == None && U16Array(s) == None
    ensures |s| < 4 ==> DecodeMaterial(s) == None && DecodeTail(s) == None && DecodeSubmesh(s) == None
    ensures |s| < 4 ==> MaterialArray(s) == None
    ensures |s| < 17 ==> DecodeModel(s) == None
  {
  }

  lemma U32Put(x: u32, rest: seq<byte>)
    ensures U32(Put32(x, rest)) == Some(Parsed(x, rest))
  {
    var s := Put32(x, rest);
    assert s[4..] == rest;
    assert x == x % 0x100 + 0x100 * (x / 0x100);
    assert x / 0x100 == x / 0x100 % 0x100 + 0x100 * (x / 0x1_0000);
    assert x / 0x1_0000 == x / 0x1_0000 % 0x100 + 0x100 * (x / 0x100_0000);
  }

  lemma U32Exact(s: seq<byte>)
    requires U32(s).Some?
    ensures s == Put32(U32(s).value.item, U32(s).value.rest)
  {
    var x := U32(s).value.item;
    var b0, b1, b2, b3: int := s[0], s[1], s[2], s[3];
    assert x == b0 + 0x100 * (b1 + 0x100 * (b2 + 0x100 * b3));
    assert x % 0x100 == b0 && x / 0x100 == b1 + 0x100 * (b2 + 0x100 * b3);
    assert x / 0x1_0000 == (x / 0x100) / 0x100 == b2 + 0x100 * b3;
    assert x / 0x100_0000 == (x / 0x1_0000) / 0x100 == b3;
    assert s == s[..4] + s[4..];
  }

  lemma StrPut(b: seq<byte>, rest: seq<byte>)
    requires |b| < U32Limit
    ensures Str(PutStr(b, rest)) == Some(Parsed(b, rest))
  {
    U32Put(|b|, b + rest);
    assert (b + rest)[..|b|] == b;
    assert (b + rest)[|b|..] == rest;
  }

  /** A name read in full, followed by at least one more byte, is exactly its
      length field and its bytes. */
  lemma StrExact(s: seq<byte>)
    requires Str(s).Some? && Str(s).value.rest != []
    ensures |Str(s).value.item| < U32Limit
    ensures s == PutStr(Str(s).value.item, Str(s).value.rest)
  {
    U32Exact(s);
  }

  /** Reading a field splits the bytes into the field's encoding and what follows. */
  lemma U32Split(s: seq<byte>) returns (x: u32, r: seq<byte>)
    requires 4 <= |s|
    ensures U32(s) == Some(Parsed(x, r)) && s == Put32(x, r)
  {
    x, r := U32(s).value.item, U32(s).value.rest;
    U32Exact(s);
  }

  lemma U8Split(s: seq<byte>) returns (x: byte, r: seq<byte>)
    requires 1 <= |s|
    ensures U8(s) == Some(Parsed(x, r)) && s == Put8(x, r)
  {
    x, r := s[0], s[1..];
    assert s == [s[0]] + s[1..];
  }

  /** The length field of a written name holds its length, and the name
      follows it. */
  lemma PutStrFields(b: seq<byte>, rest: seq<byte>)
    requires |b| < U32Limit
    ensures var s := PutStr(b, rest);
      LeValue(s[..4]) == |b| && 4 + |b| <= |s| && s[4..4 + |b|] == b
  {
    var s := PutStr(b, rest);
    U32Put(|b|, b + rest);
    assert s[4..] == b + rest;
    assert s[4..4 + |b|] == (b + rest)[..|b|];
  }

  lemma StrSplit(s: seq<byte>) returns (b: seq<byte>, r: seq<byte>)
    requires 4 <= |s|
    ensures Str(s) == Some(Parsed(b, r))
    ensures r != [] ==> |b| < U32Limit && s == PutStr(b, r)
  {
    b, r := Str(s).value.item, Str(s).value.rest;
    if r != [] {
      StrExact(s);
    }
  }

  /** A zero length field gives the empty name and consumes nothing after it;
      otherwise the name is the bytes that follow its length field, all of
      them when the file ends first. */
  lemma StrLength(s: seq<byte>)
    requires 4 <= |s|
    ensures var n := LeValue(s[..4]);
      && (n == 0 ==> Str(s) == Some(Parsed([], s[4..])))
      && (n <= |s| - 4 ==> Str(s) == Some(Parsed(s[4..4 + n], s[4 + n..])))
      && (n > |s| - 4 ==> Str(s) == Some(Parsed(s[4..], [])))
  {
    var n := LeValue(s[..4]);
    if n <= |s| - 4 {
      assert s[4..][..n] == s[4..4 + n];
      assert s[4..][n..] == s[4 + n..];
    }
  }

  // ---------------------------------------------------------------------
  // Flat arrays

  lemma Unpack32Pack32(ws: seq<u32>)
    ensures Unpack32(Pack32(ws)) == ws
  {
    Pow256Widths();
    UnpackPack(ws, 4);
  }

  lemma Pack32Unpack32(b: seq<byte>)
    requires |b| % 4 == 0
    ensures Pack32(Unpack32(b)) == b
  {
    PackUnpack(b, 4);
  }

  lemma Unpack16Pack16(hs: seq<u16>)
    ensures Unpack16(Pack16(hs)) == hs
  {
    Pow256Widths();
    UnpackPack(hs, 2);
  }

  lemma Pack16Unpack16(b: seq<byte>)
    requires |b| % 2 == 0
    ensures Pack16(Unpack16(b)) == b
  {
    PackUnpack(b, 2);
  }

  lemma {:induction false} Vec3sFlatten3(vs: seq<Vec3>)
    ensures Vec3s(Flatten3(vs)) == vs
  {
    if vs != [] {
      var ws := Flatten3(vs);
      assert ws[3..] == Flatten3(vs[1..]);
      Vec3sFlatten3(vs[1..]);
    }
  }

  lemma {:induction false} Flatten3Vec3s(ws: seq<u32>)
    requires |ws| % 3 == 0
    ensures Flatten3(Vec3s(ws)) == ws
  {
    if ws != [] {
      var vs := Vec3s(ws);
      assert vs[1..] == Vec3s(ws[3..]);
      Flatten3Vec3s(ws[3..]);
      assert ws == ws[..3] + ws[3..];
    }
  }

  lemma {:induction false} Vec2sFlatten2(vs: seq<Vec2>)
    ensures Vec2s(Flatten2(vs)) == vs
  {
    if vs != [] {
      var ws := Flatten2(vs);
      assert ws[2..] == Flatten2(vs[1..]);
      Vec2sFlatten2(vs[1..]);
    }
  }

  lemma {:induction false} Flatten2Vec2s(ws: seq<u32>)
    requires |ws| % 2 == 0
    ensures Flatten2(Vec2s(ws)) == ws
  {
    if ws != [] {
      var vs := Vec2s(ws);
      assert vs[1..] == Vec2s(ws[2..]);
      Flatten2Vec2s(ws[2..]);
      assert ws == ws[..2] + ws[2..];
    }
  }

  // ---------------------------------------------------------------------
  // Face grouping

  /** Grouping peels off the first three indices when more than three remain. */
  lemma GroupFacesCons(raw: seq<u32>)
    requires |raw| > 3
    ensures GroupFaces(raw) == [raw[..3]] + GroupFaces(raw[3..])
  {
    var g, g' := GroupFaces(raw), GroupFaces(raw[3..]);
    assert |g| == 1 + |g'|;
    forall i | 1 <= i < |g|
      ensures g[i] == g'[i - 1]
    {
      assert |g[i]| == |g'[i - 1]|;
    }
  }

  lemma GroupFacesSingle(raw: seq<u32>)
    requires 1 <= |raw| <= 3
    ensures GroupFaces(raw) == [raw]
  {
    var g := GroupFaces(raw);
    assert |g| == 1;
    assert |g[0]| == |raw|;
    assert g[0] == raw[0..|raw|] == raw;
  }

  /** Concatenating the groups gives back the raw index array, in order. */
  lemma {:induction false} FlattenGroupFaces(raw: seq<u32>)
    ensures Flatten(GroupFaces(raw)) == raw
    decreases |raw|
  {
    if |raw| > 3 {
      GroupFacesCons(raw);
      FlattenGroupFaces(raw[3..]);
      assert raw == raw[..3] + raw[3..];
    } else if raw != [] {
      GroupFacesSingle(raw);
    }
  }

  /** Grouping the concatenation of well-grouped faces gives them back. */
  lemma {:induction false} GroupFacesFlatten(faces: seq<seq<u32>>)
    requires WellGrouped(faces)
    ensures GroupFaces(Flatten(faces)) == faces
  {
    if faces != [] {
      var raw := Flatten(faces);
      assert WellGrouped(faces[1..]);
      GroupFacesFlatten(faces[1..]);
      if |faces| == 1 {
        assert faces[1..] == [];
        assert raw == faces[0] + [];
        GroupFacesSingle(raw);
      } else {
        assert |faces[0]| == 3;
        assert |faces[1]| >= 1;
        assert Flatten(faces[1..]) == faces[1] + Flatten(faces[2..]);
        GroupFacesCons(raw);
        assert raw[..3] == faces[0];
        assert raw[3..] == Flatten(faces[1..]);
        assert faces == [faces[0]] + faces[1..];
      }
    }
  }

  /** Seven indices make three faces, the last holding the seventh index alone. */
  lemma GroupSevenIndices(raw: seq<u32>)
    requires |raw| == 7
    ensures |GroupFaces(raw)| == 3 && GroupFaces(raw)[2] == [raw[6]]
  {
  }

  // ---------------------------------------------------------------------
  // Count-prefixed arrays: the count read is the number of entries decoded

  lemma Vec3ArrayPut(vs: seq<Vec3>, rest: seq<byte>)
    requires |vs| < U32Limit
    ensures Vec3Array(PutVec3Array(vs, rest)) == Some(Parsed(vs, rest))
  {
    var b := Pack32(Flatten3(vs));
    U32Put(|vs|, b + rest);
    TakePut(b, rest);
    Unpack32Pack32(Flatten3(vs));
    Vec3sFlatten3(vs);
  }

  lemma Vec3ArrayExact(s: seq<byte>)
    requires Vec3Array(s).Some?
    ensures var p := Vec3Array(s).value;
      |p.item| == U32(s).value.item && s == PutVec3Array(p.item, p.rest)
  {
    var n, r := U32Split(s);
    var k: int := n;
    var b, rest := r[..12 * k], r[12 * k..];
    assert r == b + rest;
    assert |b| == 4 * (3 * k);
    assert |b| % 4 == 0 && |b| / 4 == 3 * k;
    var ws := Unpack32(b);
    assert Vec3Array(s) == Some(Parsed(Vec3s(ws), rest));
    Pack32Unpack32(b);
    Flatten3Vec3s(ws);
  }

  lemma Vec2ArrayPut(vs: seq<Vec2>, rest: seq<byte>)
    requires |vs| < U32Limit
    ensures Vec2Array(PutVec2Array(vs, rest)) == Some(Parsed(vs, rest))
  {
    var b := Pack32(Flatten2(vs));
    U32Put(|vs|, b + rest);
    TakePut(b, rest);
    Unpack32Pack32(Flatten2(vs));
    Vec2sFlatten2(vs);
  }

  lemma Vec2ArrayExact(s: seq<byte>)
    requires Vec2Array(s).Some?
    ensures var p := Vec2Array(s).value;
      |p.item| == U32(s).value.item && s == PutVec2Array(p.item, p.rest)
  {
    var n, r := U32Split(s);
    var k: int := n;
    var b, rest := r[..8 * k], r[8 * k..];
    assert r == b + rest;
    assert |b| == 4 * (2 * k);
    assert |b| % 4 == 0 && |b| / 4 == 2 * k;
    var ws := Unpack32(b);
    assert Vec2Array(s) == Some(Parsed(Vec2s(ws), rest));
    Pack32Unpack32(b);
    Flatten2Vec2s(ws);
  }

  lemma U32ArrayPut(ws: seq<u32>, rest: seq<byte>)
    requires |ws| < U32Limit
    ensures U32Array(PutU32Array(ws, rest)) == Some(Parsed(ws, rest))
  {
    U32Put(|ws|, Pack32(ws) + rest);
    TakePut(Pack32(ws), rest);
    Unpack32Pack32(ws);
  }

  lemma U32ArrayExact(s: seq<byte>)
    requires U32Array(s).Some?
    ensures var p := U32Array(s).value;
      |p.item| == U32(s).value.item && s == PutU32Array(p.item, p.rest)
  {
    var n, r := U32Split(s);
    var k: int := n;
    var b, rest := r[..4 * k], r[4 * k..];
    assert r == b + rest;
    assert U32Array(s) == Some(Parsed(Unpack32(b), rest));
    Pack32Unpack32(b);
  }

  lemma U16ArrayPut(hs: seq<u16>, rest: seq<byte>)
    requires |hs| < U32Limit
    ensures U16Array(PutU16Array(hs, rest)) == Some(Parsed(hs, rest))
  {
    U32Put(|hs|, Pack16(hs) + rest);
    TakePut(Pack16(hs), rest);
    Unpack16Pack16(hs);
  }

  lemma U16ArrayExact(s: seq<byte>)
    requires U16Array(s).Some?
    ensures var p := U16Array(s).value;
      |p.item| == U32(s).value.item && s == PutU16Array(p.item, p.rest)
  {
    var n, r := U32Split(s);
    var k: int := n;
    var b, rest := r[..2 * k], r[2 * k..];
    assert r == b + rest;
    assert U16Array(s) == Some(Parsed(Unpack16(b), rest));
    Pack16Unpack16(b);
  }

  lemma TailPut(t: Tail, rest: seq<byte>)
    ensures DecodeTail(PutTail(t, rest)) == Some(Parsed(t, rest))
  {
    U32Put(t.t4, rest);
    U32Put(t.t3, Put32(t.t4, rest));
    U32Put(t.t2, Put32(t.t3, Put32(t.t4, rest)));
    U32Put(t.t1, Put32(t.t2, Put32(t.t3, Put32(t.t4, rest))));
  }

  lemma TailExact(s: seq<byte>)
    requires DecodeTail(s).Some?
    ensures s == PutTail(DecodeTail(s).value.item, DecodeTail(s).value.rest)
  {
    var a := U32(s).value;
    var b := U32(a.rest).value;
    var c := U32(b.rest).value;
    U32Exact(s);
    U32Exact(a.rest);
    U32Exact(b.rest);
    U32Exact(c.rest);
  }

  // ---------------------------------------------------------------------
  // read_material

  /** The material decoder, one field after another over abstract byte strings. */
  lemma MaterialFields(s: seq<byte>, c1: u32, r1: seq<byte>, c2: u32, r2: seq<byte>, alpha: u32, r3: seq<byte>,
                       c3: u32, r4: seq<byte>, c4: u32, r5: seq<byte>, flag: byte, r6: seq<byte>,
                       t1: seq<byte>, r7: seq<byte>, t2: seq<byte>, r8: seq<byte>, t3: seq<byte>, r9: seq<byte>,
                       name: seq<byte>, rest: seq<byte>)
    requires U32(s) == Some(Parsed(c1, r1)) && U32(r1) == Some(Parsed(c2, r2))
    requires U32(r2) == Some(Parsed(alpha, r3))
    requires U32(r3) == Some(Parsed(c3, r4)) && U32(r4) == Some(Parsed(c4, r5))
    requires U8(r5) == Some(Parsed(flag, r6))
    requires Str(r6) == Some(Parsed(t1, r7)) && Str(r7) == Some(Parsed(t2, r8))
    requires Str(r8) == Some(Parsed(t3, r9)) && Str(r9) == Some(Parsed(name, rest))
    ensures DecodeMaterial(s) == Some(Parsed(Material(c1, c2, alpha, c3, c4, flag, t1, t2, t3, name), rest))
  {
  }

  lemma MaterialPut(m: Material, rest: seq<byte>)
    requires MaterialOk(m)
    ensures DecodeMaterial(EncodeMaterial(m, rest)) == Some(Parsed(m, rest))
  {
    var r9 := PutStr(m.name, rest);
    var r8 := PutStr(m.texture3, r9);
    var r7 := PutStr(m.texture2, r8);
    var r6 := PutStr(m.texture1, r7);
    var r5 := Put8(m.flag, r6);
    var r4 := Put32(m.color4, r5);
    var r3 := Put32(m.color3, r4);
    var r2 := Put32(m.alpha, r3);
    var r1 := Put32(m.color2, r2);
    StrPut(m.name, rest);
    StrPut(m.texture3, r9);
    StrPut(m.texture2, r8);
    StrPut(m.texture1, r7);
    assert U8(r5) == Some(Parsed(m.flag, r6));
    U32Put(m.color4, r5);
    U32Put(m.color3, r4);
    U32Put(m.alpha, r3);
    U32Put(m.color2, r2);
    U32Put(m.color1, r1);
  }

  /** A material decoded with at least one byte after it occupies exactly its
      documented encoding: the fields in order, each name as long as its
      length field says. */
  lemma MaterialExact(s: seq<byte>)
    requires DecodeMaterial(s).Some? && DecodeMaterial(s).value.rest != []
    ensures MaterialOk(DecodeMaterial(s).value.item)
    ensures s == EncodeMaterial(DecodeMaterial(s).value.item, DecodeMaterial(s).value.rest)
  {
    var c1, r1 := U32Split(s);
    var c2, r2 := U32Split(r1);
    var alpha, r3 := U32Split(r2);
    var c3, r4 := U32Split(r3);
    var c4, r5 := U32Split(r4);
    var flag, r6 := U8Split(r5);
    var t1, r7 := StrSplit(r6);
    var t2, r8 := StrSplit(r7);
    var t3, r9 := StrSplit(r8);
    var name, rest := StrSplit(r9);
    MaterialFields(s, c1, r1, c2, r2, alpha, r3, c3, r4, c4, r5, flag, r6, t1, r7, t2, r8, t3, r9, name, rest);
  }

  lemma HeadTail<T>(xs: seq<T>)
    requires xs != []
    ensures [xs[0]] + xs[1..] == xs
  {
  }

  /** One step of a repeated read, over any bytes: the first item, then the
      remaining n - 1. */
  lemma RepeatStep<T>(decode: seq<byte> -> Option<Parsed<T>>, s: seq<byte>, n: nat, k: nat, x: T, r: seq<byte>)
    requires n == k + 1 && decode(s) == Some(Parsed(x, r))
    ensures Repeat(decode, s, n) == Prepend(x, Repeat(decode, r, k))
  {
  }

  lemma {:induction false} MaterialsPut(ms: seq<Material>, rest: seq<byte>)
    requires forall i :: 0 <= i < |ms| ==> MaterialOk(ms[i])
    ensures Repeat(DecodeMaterial, EncodeMaterials(ms, rest), |ms|) == Some(Parsed(ms, rest))
  {
    if ms != [] {
      var m, tail := ms[0], ms[1..];
      var r := EncodeMaterials(tail, rest);
      var s := EncodeMaterial(m, r);
      MaterialsPut(tail, rest);
      MaterialPut(m, r);
      MaterialsCons(s, |ms|, m, r, tail, rest);
      HeadTail(ms);
    }
  }

  lemma MaterialSplit(s: seq<byte>) returns (m: Material, r: seq<byte>)
    requires DecodeMaterial(s).Some?
    ensures DecodeMaterial(s) == Some(Parsed(m, r))
    ensures r != [] ==> MaterialOk(m) && s == EncodeMaterial(m, r)
  {
    m, r := DecodeMaterial(s).value.item, DecodeMaterial(s).value.rest;
    if r != [] {
      MaterialExact(s);
    }
  }

  /** The material loop over abstract byte strings: a material, then the rest. */
  lemma MaterialsCons(s: seq<byte>, n: nat, m: Material, r: seq<byte>, ms: seq<Material>, rest: seq<byte>)
    requires n == |ms| + 1
    requires DecodeMaterial(s) == Some(Parsed(m, r)) && Repeat(DecodeMaterial, r, |ms|) == Some(Parsed(ms, rest))
    ensures Repeat(DecodeMaterial, s, n) == Some(Parsed([m] + ms, rest))
  {
    RepeatStep(DecodeMaterial, s, n, |ms|, m, r);
  }

  lemma MaterialsJoin(s: seq<byte>, m: Material, r: seq<byte>, ms: seq<Material>, rest: seq<byte>)
    requires MaterialOk(m) && forall i :: 0 <= i < |ms| ==> MaterialOk(ms[i])
    requires s == EncodeMaterial(m, r) && r == EncodeMaterials(ms, rest)
    ensures forall i :: 0 <= i < |[m] + ms| ==> MaterialOk(([m] + ms)[i])
    ensures s == EncodeMaterials([m] + ms, rest)
  {
    EncodeMaterialsCons(m, ms, rest);
  }

  lemma EncodeMaterialsCons(m: Material, ms: seq<Material>, rest: seq<byte>)
    requires MaterialOk(m) && forall i :: 0 <= i < |ms| ==> MaterialOk(ms[i])
    ensures forall i :: 0 <= i < |[m] + ms| ==> MaterialOk(([m] + ms)[i])
    ensures EncodeMaterials([m] + ms, rest) == EncodeMaterial(m, EncodeMaterials(ms, rest))
  {
    assert ([m] + ms)[1..] == ms;
  }

  lemma {:induction false} MaterialsExact(s: seq<byte>, n: nat)
    requires Repeat(DecodeMaterial, s, n).Some? && Repeat(DecodeMaterial, s, n).value.rest != []
    ensures var p := Repeat(DecodeMaterial, s, n).value;
      |p.item| == n && (forall i :: 0 <= i < |p.item| ==> MaterialOk(p.item[i])) &&
      s == EncodeMaterials(p.item, p.rest)
    decreases n
  {
    if n > 0 {
      var k: nat := n - 1;
      var m, r := MaterialSplit(s);
      RepeatStep(DecodeMaterial, s, n, k, m, r);
      var ms, rest := Repeat(DecodeMaterial, r, k).value.item, Repeat(DecodeMaterial, r, k).value.rest;
      if k > 0 {
      }
      MaterialsExact(r, k);
      MaterialsCons(s, n, m, r, ms, rest);
      MaterialsJoin(s, m, r, ms, rest);
    }
  }

  // ---------------------------------------------------------------------
  // read_submesh

  /** The submesh decoder, one field after another over abstract byte strings. */
  lemma SubmeshFields(s: seq<byte>, name: seq<byte>, r1: seq<byte>, verts: seq<Vec3>, r2: seq<byte>,
                      raw: seq<u32>, r3: seq<byte>, uvFlag: byte, r4: seq<byte>, uvs: seq<Vec2>, r5: seq<byte>,
                      normalFlag: byte, r6: seq<byte>, normals: seq<Vec3>, r7: seq<byte>,
                      extra: byte, r8: seq<byte>, reserved: u32, r9: seq<byte>,
                      mats: seq<Material>, r10: seq<byte>, ids: seq<u16>, r11: seq<byte>, tail: Tail, rest: seq<byte>)
    requires Str(s) == Some(Parsed(name, r1))
    requires Vec3Array(r1) == Some(Parsed(verts, r2))
    requires U32Array(r2) == Some(Parsed(raw, r3))
    requires U8(r3) == Some(Parsed(uvFlag, r4))
    requires Vec2Array(r4) == Some(Parsed(uvs, r5))
    requires U8(r5) == Some(Parsed(normalFlag, r6))
    requires Vec3Array(r6) == Some(Parsed(normals, r7))
    requires U8(r7) == Some(Parsed(extra, r8))
    requires U32(r8) == Some(Parsed(reserved, r9))
    requires MaterialArray(r9) == Some(Parsed(mats, r10))
    requires U16Array(r10) == Some(Parsed(ids, r11))
    requires DecodeTail(r11) == Some(Parsed(tail, rest))
    ensures DecodeSubmesh(s) == Some(Parsed(Submesh(name, verts, GroupFaces(raw), uvFlag, uvs, normalFlag,
                                                    normals, extra, reserved, mats, ids, tail), rest))
  {
  }

  lemma MaterialArrayPut(ms: seq<Material>, rest: seq<byte>)
    requires |ms| < U32Limit && forall i :: 0 <= i < |ms| ==> MaterialOk(ms[i])
    ensures MaterialArray(Put32(|ms|, EncodeMaterials(ms, rest))) == Some(Parsed(ms, rest))
  {
    U32Put(|ms|, EncodeMaterials(ms, rest));
    MaterialsPut(ms, rest);
  }

  lemma SubmeshPut(sm: Submesh, rest: seq<byte>)
    requires SubmeshOk(sm)
    ensures DecodeSubmesh(EncodeSubmesh(sm, rest)) == Some(Parsed(sm, rest))
  {
    var r11 := PutTail(sm.tail, rest);
    var r10 := PutU16Array(sm.matids, r11);
    var r9 := Put32(|sm.materials|, EncodeMaterials(sm.materials, r10));
    var r8 := Put32(sm.reserved, r9);
    var r7 := Put8(sm.extraFlag, r8);
    var r6 := PutVec3Array(sm.normals, r7);
    var r5 := Put8(sm.normalFlag, r6);
    var r4 := PutVec2Array(sm.uvs, r5);
    var r3 := Put8(sm.uvFlag, r4);
    var raw := Flatten(sm.faces);
    var r2 := PutU32Array(raw, r3);
    var r1 := PutVec3Array(sm.vertices, r2);
    var s := PutStr(sm.name, r1);
    assert s == EncodeSubmesh(sm, rest);
    TailPut(sm.tail, rest);
    U16ArrayPut(sm.matids, r11);
    MaterialArrayPut(sm.materials, r10);
    U32Put(sm.reserved, r9);
    assert U8(r7) == Some(Parsed(sm.extraFlag, r8));
    Vec3ArrayPut(sm.normals, r7);
    assert U8(r5) == Some(Parsed(sm.normalFlag, r6));
    Vec2ArrayPut(sm.uvs, r5);
    assert U8(r3) == Some(Parsed(sm.uvFlag, r4));
    U32ArrayPut(raw, r3);
    Vec3ArrayPut(sm.vertices, r2);
    StrPut(sm.name, r1);
    GroupFacesFlatten(sm.faces);
    SubmeshFields(s, sm.name, r1, sm.vertices, r2, raw, r3, sm.uvFlag, r4, sm.uvs, r5, sm.normalFlag, r6,
                  sm.normals, r7, sm.extraFlag, r8, sm.reserved, r9, sm.materials, r10, sm.matids, r11, sm.tail, rest);
  }

  lemma Vec3ArraySplit(s: seq<byte>) returns (vs: seq<Vec3>, r: seq<byte>)
    requires Vec3Array(s).Some?
    ensures Vec3Array(s) == Some(Parsed(vs, r)) && |vs| < U32Limit && s == PutVec3Array(vs, r)
  {
    vs, r := Vec3Array(s).value.item, Vec3Array(s).value.rest;
    Vec3ArrayExact(s);
  }

  lemma Vec2ArraySplit(s: seq<byte>) returns (vs: seq<Vec2>, r: seq<byte>)
    requires Vec2Array(s).Some?
    ensures Vec2Array(s) == Some(Parsed(vs, r)) && |vs| < U32Limit && s == PutVec2Array(vs, r)
  {
    vs, r := Vec2Array(s).value.item, Vec2Array(s).value.rest;
    Vec2ArrayExact(s);
  }

  lemma U32ArraySplit(s: seq<byte>) returns (ws: seq<u32>, r: seq<byte>)
    requires U32Array(s).Some?
    ensures U32Array(s) == Some(Parsed(ws, r)) && |ws| < U32Limit && s == PutU32Array(ws, r)
  {
    ws, r := U32Array(s).value.item, U32Array(s).value.rest;
    U32ArrayExact(s);
  }

  lemma U16ArraySplit(s: seq<byte>) returns (hs: seq<u16>, r: seq<byte>)
    requires U16Array(s).Some?
    ensures U16Array(s) == Some(Parsed(hs, r)) && |hs| < U32Limit && s == PutU16Array(hs, r)
  {
    hs, r := U16Array(s).value.item, U16Array(s).value.rest;
    U16ArrayExact(s);
  }

  lemma TailSplit(s: seq<byte>) returns (t: Tail, r: seq<byte>)
    requires DecodeTail(s).Some?
    ensures DecodeTail(s) == Some(Parsed(t, r)) && s == PutTail(t, r)
  {
    t, r := DecodeTail(s).value.item, DecodeTail(s).value.rest;
    TailExact(s);
  }

  lemma MaterialArraySplit(s: seq<byte>) returns (ms: seq<Material>, r: seq<byte>)
    requires MaterialArray(s).Some?
    ensures MaterialArray(s) == Some(Parsed(ms, r))
    ensures r != [] ==> |ms| < U32Limit && (forall i :: 0 <= i < |ms| ==> MaterialOk(ms[i])) &&
                        s == Put32(|ms|, EncodeMaterials(ms, r))
  {
    var n, r0 := U32Split(s);
    ms, r := Repeat(DecodeMaterial, r0, n).value.item, Repeat(DecodeMaterial, r0, n).value.rest;
    if r != [] {
      MaterialsExact(r0, n);
    }
  }

  /** A successful submesh decode, field by field: every read in it
      succeeded, each on the bytes the one before it left. */
  lemma SubmeshUnfold(s: seq<byte>)
    returns (name: seq<byte>, r1: seq<byte>, verts: seq<Vec3>, r2: seq<byte>,
             raw: seq<u32>, r3: seq<byte>, uvFlag: byte, r4: seq<byte>, uvs: seq<Vec2>, r5: seq<byte>,
             normalFlag: byte, r6: seq<byte>, normals: seq<Vec3>, r7: seq<byte>,
             extra: byte, r8: seq<byte>, reserved: u32, r9: seq<byte>,
             mats: seq<Material>, r10: seq<byte>, ids: seq<u16>, r11: seq<byte>, tail: Tail, rest: seq<byte>)
    requires DecodeSubmesh(s).Some?
    ensures Str(s) == Some(Parsed(name, r1))
    ensures Vec3Array(r1) == Some(Parsed(verts, r2))
    ensures U32Array(r2) == Some(Parsed(raw, r3))
    ensures U8(r3) == Some(Parsed(uvFlag, r4))
    ensures Vec2Array(r4) == Some(Parsed(uvs, r5))
    ensures U8(r5) == Some(Parsed(normalFlag, r6))
    ensures Vec3Array(r6) == Some(Parsed(normals, r7))
    ensures U8(r7) == Some(Parsed(extra, r8))
    ensures U32(r8) == Some(Parsed(reserved, r9))
    ensures MaterialArray(r9) == Some(Parsed(mats, r10))
    ensures U16Array(r10) == Some(Parsed(ids, r11))
    ensures DecodeTail(r11) == Some(Parsed(tail, rest))
    ensures DecodeSubmesh(s) == Some(Parsed(Submesh(name, verts, GroupFaces(raw), uvFlag, uvs, normalFlag,
                                                    normals, extra, reserved, mats, ids, tail), rest))
  {
    name, r1 := Str(s).value.item, Str(s).value.rest;
    verts, r2 := Vec3Array(r1).value.item, Vec3Array(r1).value.rest;
    raw, r3 := U32Array(r2).value.item, U32Array(r2).value.rest;
    uvFlag, r4 := U8(r3).value.item, U8(r3).value.rest;
    uvs, r5 := Vec2Array(r4).value.item, Vec2Array(r4).value.rest;
    normalFlag, r6 := U8(r5).value.item, U8(r5).value.rest;
    normals, r7 := Vec3Array(r6).value.item, Vec3Array(r6).value.rest;
    extra, r8 := U8(r7).value.item, U8(r7).value.rest;
    reserved, r9 := U32(r8).value.item, U32(r8).value.rest;
    mats, r10 := MaterialArray(r9).value.item, MaterialArray(r9).value.rest;
    ids, r11 := U16Array(r10).value.item, U16Array(r10).value.rest;
    tail, rest := DecodeTail(r11).value.item, DecodeTail(r11).value.rest;
  }

  /** A decoded submesh occupies exactly its documented encoding, and the
      record decoded is one the format can carry. */
  lemma SubmeshExact(s: seq<byte>)
    requires DecodeSubmesh(s).Some?
    ensures SubmeshOk(DecodeSubmesh(s).value.item)
    ensures s == EncodeSubmesh(DecodeSubmesh(s).value.item, DecodeSubmesh(s).value.rest)
    ensures Str(s).Some? && Str(s).value.item == DecodeSubmesh(s).value.item.name && Str(s).value.rest != []
  {
    var name, r1, verts, r2, raw, r3, uvFlag, r4, uvs, r5, normalFlag, r6,
        normals, r7, extra, r8, reserved, r9, mats, r10, ids, r11, tail, rest := SubmeshUnfold(s);
    StrExact(s);
    Vec3ArrayExact(r1);
    U32ArrayExact(r2);
    var _, _ := U8Split(r3);
    Vec2ArrayExact(r4);
    var _, _ := U8Split(r5);
    Vec3ArrayExact(r6);
    var _, _ := U8Split(r7);
    U32Exact(r8);
    var _, _ := MaterialArraySplit(r9);
    U16ArrayExact(r10);
    TailExact(r11);
    SubmeshChain(s, name, r1, verts, r2, raw, r3, uvFlag, r4, uvs, r5, normalFlag, r6,
                 normals, r7, extra, r8, reserved, r9, mats, r10, ids, r11, tail, rest);
  }

  /** The submesh encoding, one field after another over abstract byte strings. */
  lemma SubmeshChain(s: seq<byte>, name: seq<byte>, r1: seq<byte>, verts: seq<Vec3>, r2: seq<byte>,
                     raw: seq<u32>, r3: seq<byte>, uvFlag: byte, r4: seq<byte>, uvs: seq<Vec2>, r5: seq<byte>,
                     normalFlag: byte, r6: seq<byte>, normals: seq<Vec3>, r7: seq<byte>,
                     extra: byte, r8: seq<byte>, reserved: u32, r9: seq<byte>,
                     mats: seq<Material>, r10: seq<byte>, ids: seq<u16>, r11: seq<byte>, tail: Tail, rest: seq<byte>)
    requires |name| < U32Limit && s == PutStr(name, r1)
    requires |verts| < U32Limit && r1 == PutVec3Array(verts, r2)
    requires |raw| < U32Limit && r2 == PutU32Array(raw, r3)
    requires r3 == Put8(uvFlag, r4)
    requires |uvs| < U32Limit && r4 == PutVec2Array(uvs, r5)
    requires r5 == Put8(normalFlag, r6)
    requires |normals| < U32Limit && r6 == PutVec3Array(normals, r7)
    requires r7 == Put8(extra, r8)
    requires r8 == Put32(reserved, r9)
    requires |mats| < U32Limit && (forall i :: 0 <= i < |mats| ==> MaterialOk(mats[i]))
    requires r9 == Put32(|mats|, EncodeMaterials(mats, r10))
    requires |ids| < U32Limit && r10 == PutU16Array(ids, r11)
    requires r11 == PutTail(tail, rest)
    ensures var sm := Submesh(name, verts, GroupFaces(raw), uvFlag, uvs, normalFlag,
                              normals, extra, reserved, mats, ids, tail);
      SubmeshOk(sm) && s == EncodeSubmesh(sm, rest)
  {
    FlattenGroupFaces(raw);
  }

  lemma SubmeshSplit(s: seq<byte>) returns (sm: Submesh, r: seq<byte>)
    requires DecodeSubmesh(s).Some?
    ensures DecodeSubmesh(s) == Some(Parsed(sm, r)) && SubmeshOk(sm) && s == EncodeSubmesh(sm, r)
  {
    sm, r := DecodeSubmesh(s).value.item, DecodeSubmesh(s).value.rest;
    SubmeshExact(s);
  }

  lemma SubmeshEncodes(s: seq<byte>, sm: Submesh, r: seq<byte>)
    requires DecodeSubmesh(s) == Some(Parsed(sm, r))
    ensures SubmeshOk(sm) && s == EncodeSubmesh(sm, r)
  {
    SubmeshExact(s);
  }

  // ---------------------------------------------------------------------
  // read_file

  /** A successful decode of n = k + 1 submeshes: the first one, then k more. */
  lemma SubmeshesHead(s: seq<byte>, n: nat, k: nat) returns (sm: Submesh, r: seq<byte>, ss: seq<Submesh>, rest: seq<byte>)
    requires n == k + 1 && Repeat(DecodeSubmesh, s, n).Some?
    ensures DecodeSubmesh(s) == Some(Parsed(sm, r)) && Repeat(DecodeSubmesh, r, k) == Some(Parsed(ss, rest))
  {
    sm, r := DecodeSubmesh(s).value.item, DecodeSubmesh(s).value.rest;
    RepeatStep(DecodeSubmesh, s, n, k, sm, r);
    ss, rest := Repeat(DecodeSubmesh, r, k).value.item, Repeat(DecodeSubmesh, r, k).value.rest;
  }

  /** The submesh loop over abstract byte strings: a submesh, then the rest. */
  lemma SubmeshesCons(s: seq<byte>, n: nat, sm: Submesh, r: seq<byte>, ss: seq<Submesh>, rest: seq<byte>)
    requires n == |ss| + 1
    requires DecodeSubmesh(s) == Some(Parsed(sm, r)) && Repeat(DecodeSubmesh, r, |ss|) == Some(Parsed(ss, rest))
    ensures Repeat(DecodeSubmesh, s, n) == Some(Parsed([sm] + ss, rest))
  {
    RepeatStep(DecodeSubmesh, s, n, |ss|, sm, r);
  }

  /** The first submesh's bytes, followed by the encoding of the rest, are the
      encoding of the whole list. */
  lemma SubmeshesJoin(s: seq<byte>, sm: Submesh, r: seq<byte>, ss: seq<Submesh>, rest: seq<byte>)
    requires DecodeSubmesh(s) == Some(Parsed(sm, r))
    requires (forall i :: 0 <= i < |ss| ==> SubmeshOk(ss[i])) && r == EncodeSubmeshes(ss, rest)
    ensures forall i :: 0 <= i < |[sm] + ss| ==> SubmeshOk(([sm] + ss)[i])
    ensures s == EncodeSubmeshes([sm] + ss, rest)
  {
    SubmeshEncodes(s, sm, r);
    EncodeSubmeshesCons(sm, ss, rest);
  }

  lemma EncodeSubmeshesCons(sm: Submesh, subs: seq<Submesh>, rest: seq<byte>)
    requires SubmeshOk(sm) && forall i :: 0 <= i < |subs| ==> SubmeshOk(subs[i])
    ensures forall i :: 0 <= i < |[sm] + subs| ==> SubmeshOk(([sm] + subs)[i])
    ensures EncodeSubmeshes([sm] + subs, rest) == EncodeSubmesh(sm, EncodeSubmeshes(subs, rest))
  {
    assert ([sm] + subs)[1..] == subs;
  }

  lemma {:induction false} SubmeshesPut(subs: seq<Submesh>, rest: seq<byte>)
    requires forall i :: 0 <= i < |subs| ==> SubmeshOk(subs[i])
    ensures Repeat(DecodeSubmesh, EncodeSubmeshes(subs, rest), |subs|) == Some(Parsed(subs, rest))
  {
    if subs != [] {
      var sm, tail := subs[0], subs[1..];
      var r := EncodeSubmeshes(tail, rest);
      var s := EncodeSubmesh(sm, r);
      SubmeshesPut(tail, rest);
      SubmeshPut(sm, r);
      SubmeshesCons(s, |subs|, sm, r, tail, rest);
      HeadTail(subs);
    }
  }

  lemma {:induction false} SubmeshesExact(s: seq<byte>, n: nat)
    requires Repeat(DecodeSubmesh, s, n).Some?
    ensures var p := Repeat(DecodeSubmesh, s, n).value;
      |p.item| == n && (forall i :: 0 <= i < |p.item| ==> SubmeshOk(p.item[i])) &&
      s == EncodeSubmeshes(p.item, p.rest)
    decreases n
  {
    if n > 0 {
      var k: nat := n - 1;
      var sm, r, ss, rest := SubmeshesHead(s, n, k);
      SubmeshesExact(r, k);
      SubmeshesCons(s, n, sm, r, ss, rest);
      SubmeshesJoin(s, sm, r, ss, rest);
    }
  }

  /** The model decoder, one field after another over abstract byte strings. */
  lemma ModelFields(s: seq<byte>, h: byte, r0: seq<byte>, a: u32, r1: seq<byte>, b: u32, r2: seq<byte>,
                    c: u32, r3: seq<byte>, n: u32, r4: seq<byte>, subs: seq<Submesh>, rest: seq<byte>)
    requires U8(s) == Some(Parsed(h, r0)) && U32(r0) == Some(Parsed(a, r1))
    requires U32(r1) == Some(Parsed(b, r2)) && U32(r2) == Some(Parsed(c, r3))
    requires U32(r3) == Some(Parsed(n, r4)) && Repeat(DecodeSubmesh, r4, n) == Some(Parsed(subs, rest))
    ensures DecodeModel(s) == Some(Parsed(Model(h, a, b, c, subs), rest))
  {
  }

  /** Once the header and the count are read, the model decoded is decided by
      the submesh loop alone. */
  lemma ModelAfterCount(s: seq<byte>, h: byte, r0: seq<byte>, a: u32, r1: seq<byte>, b: u32, r2: seq<byte>,
                        c: u32, r3: seq<byte>, n: u32, r4: seq<byte>)
    requires U8(s) == Some(Parsed(h, r0)) && U32(r0) == Some(Parsed(a, r1))
    requires U32(r1) == Some(Parsed(b, r2)) && U32(r2) == Some(Parsed(c, r3))
    requires U32(r3) == Some(Parsed(n, r4))
    ensures DecodeModel(s) == match Repeat(DecodeSubmesh, r4, n)
      case None => None
      case Some(p) => Some(Parsed(Model(h, a, b, c, p.item), p.rest))
  {
  }

  /** Encoding a model in the documented layout and decoding it gives the same
      record back, reserved fields included, with the cursor just past it. */
  lemma ModelPut(m: Model, rest: seq<byte>)
    requires ModelOk(m)
    ensures DecodeModel(EncodeModel(m, rest)) == Some(Parsed(m, rest))
  {
    var r4 := EncodeSubmeshes(m.submeshes, rest);
    var r3 := Put32(|m.submeshes|, r4);
    var r2 := Put32(m.header3, r3);
    var r1 := Put32(m.header2, r2);
    var r0 := Put32(m.header1, r1);
    var s := Put8(m.headerByte, r0);
    assert s == EncodeModel(m, rest);
    SubmeshesPut(m.submeshes, rest);
    U32Put(|m.submeshes|, r4);
    U32Put(m.header3, r3);
    U32Put(m.header2, r2);
    U32Put(m.header1, r1);
    assert U8(s) == Some(Parsed(m.headerByte, r0));
    ModelFields(s, m.headerByte, r0, m.header1, r1, m.header2, r2, m.header3, r3, |m.submeshes|, r4, m.submeshes, rest);
  }

  /** A decoded model occupies exactly its documented encoding. */
  lemma ModelExact(s: seq<byte>)
    requires DecodeModel(s).Some?
    ensures ModelOk(DecodeModel(s).value.item)
    ensures s == EncodeModel(DecodeModel(s).value.item, DecodeModel(s).value.rest)
  {
    var h, r0 := U8Split(s);
    var a, r1 := U32Split(r0);
    var b, r2 := U32Split(r1);
    var c, r3 := U32Split(r2);
    var n, r4 := U32Split(r3);
    var subs, rest := Repeat(DecodeSubmesh, r4, n).value.item, Repeat(DecodeSubmesh, r4, n).value.rest;
    ModelFields(s, h, r0, a, r1, b, r2, c, r3, n, r4, subs, rest);
    SubmeshesExact(r4, n);
  }

  // ---------------------------------------------------------------------
  // Truncation

  /** Appending bytes after an encoding is the same as encoding onto a longer
      continuation. */
  lemma Put32Append(x: u32, a: seq<byte>, b: seq<byte>)
    ensures Put32(x, a) + b == Put32(x, a + b)
  {
  }

  lemma PutStrAppend(w: seq<byte>, a: seq<byte>, b: seq<byte>)
    requires |w| < U32Limit
    ensures PutStr(w, a) + b == PutStr(w, a + b)
  {
    Put32Append(|w|, w + a, b);
  }

  lemma MaterialAppend(m: Material, a: seq<byte>, b: seq<byte>)
    requires MaterialOk(m)
    ensures EncodeMaterial(m, a) + b == EncodeMaterial(m, a + b)
  {
    var r9 := PutStr(m.name, a);
    var r8 := PutStr(m.texture3, r9);
    var r7 := PutStr(m.texture2, r8);
    var r6 := PutStr(m.texture1, r7);
    var r5 := Put8(m.flag, r6);
    var r4 := Put32(m.color4, r5);
    var r3 := Put32(m.color3, r4);
    var r2 := Put32(m.alpha, r3);
    var r1 := Put32(m.color2, r2);
    PutStrAppend(m.name, a, b);
    PutStrAppend(m.texture3, r9, b);
    PutStrAppend(m.texture2, r8, b);
    PutStrAppend(m.texture1, r7, b);
    assert Put8(m.flag, r6) + b == Put8(m.flag, r6 + b);
    Put32Append(m.color4, r5, b);
    Put32Append(m.color3, r4, b);
    Put32Append(m.alpha, r3, b);
    Put32Append(m.color2, r2, b);
    Put32Append(m.color1, r1, b);
  }

  lemma {:induction false} MaterialsAppend(ms: seq<Material>, a: seq<byte>, b: seq<byte>)
    requires forall i :: 0 <= i < |ms| ==> MaterialOk(ms[i])
    ensures EncodeMaterials(ms, a) + b == EncodeMaterials(ms, a + b)
  {
    if ms != [] {
      MaterialsAppend(ms[1..], a, b);
      MaterialAppend(ms[0], EncodeMaterials(ms[1..], a), b);
    }
  }

  lemma Put8Append(x: byte, a: seq<byte>, b: seq<byte>)
    ensures Put8(x, a) + b == Put8(x, a + b)
  {
  }

  lemma Vec3ArrayAppend(vs: seq<Vec3>, a: seq<byte>, b: seq<byte>)
    requires |vs| < U32Limit
    ensures PutVec3Array(vs, a) + b == PutVec3Array(vs, a + b)
  {
    Put32Append(|vs|, Pack32(Flatten3(vs)) + a, b);
  }

  lemma Vec2ArrayAppend(vs: seq<Vec2>, a: seq<byte>, b: seq<byte>)
    requires |vs| < U32Limit
    ensures PutVec2Array(vs, a) + b == PutVec2Array(vs, a + b)
  {
    Put32Append(|vs|, Pack32(Flatten2(vs)) + a, b);
  }

  lemma U32ArrayAppend(ws: seq<u32>, a: seq<byte>, b: seq<byte>)
    requires |ws| < U32Limit
    ensures PutU32Array(ws, a) + b == PutU32Array(ws, a + b)
  {
    Put32Append(|ws|, Pack32(ws) + a, b);
  }

  lemma U16ArrayAppend(hs: seq<u16>, a: seq<byte>, b: seq<byte>)
    requires |hs| < U32Limit
    ensures PutU16Array(hs, a) + b == PutU16Array(hs, a + b)
  {
    Put32Append(|hs|, Pack16(hs) + a, b);
  }

  lemma TailAppend(t: Tail, a: seq<byte>, b: seq<byte>)
    ensures PutTail(t, a) + b == PutTail(t, a + b)
  {
    Put32Append(t.t4, a, b);
    Put32Append(t.t3, Put32(t.t4, a), b);
    Put32Append(t.t2, Put32(t.t3, Put32(t.t4, a)), b);
    Put32Append(t.t1, Put32(t.t2, Put32(t.t3, Put32(t.t4, a))), b);
  }

  lemma SubmeshAppend(sm: Submesh, a: seq<byte>, b: seq<byte>)
    requires SubmeshOk(sm)
    ensures EncodeSubmesh(sm, a) + b == EncodeSubmesh(sm, a + b)
  {
    var r12 := PutTail(sm.tail, a);
    var r11 := PutU16Array(sm.matids, r12);
    var r10 := EncodeMaterials(sm.materials, r11);
    var r9 := Put32(|sm.materials|, r10);
    var r8 := Put32(sm.reserved, r9);
    var r7 := Put8(sm.extraFlag, r8);
    var r6 := PutVec3Array(sm.normals, r7);
    var r5 := Put8(sm.normalFlag, r6);
    var r4 := PutVec2Array(sm.uvs, r5);
    var r3 := Put8(sm.uvFlag, r4);
    var r2 := PutU32Array(Flatten(sm.faces), r3);
    var r1 := PutVec3Array(sm.vertices, r2);
    TailAppend(sm.tail, a, b);
    U16ArrayAppend(sm.matids, r12, b);
    MaterialsAppend(sm.materials, r11, b);
    Put32Append(|sm.materials|, r10, b);
    Put32Append(sm.reserved, r9, b);
    Put8Append(sm.extraFlag, r8, b);
    Vec3ArrayAppend(sm.normals, r7, b);
    Put8Append(sm.normalFlag, r6, b);
    Vec2ArrayAppend(sm.uvs, r5, b);
    Put8Append(sm.uvFlag, r4, b);
    U32ArrayAppend(Flatten(sm.faces), r3, b);
    Vec3ArrayAppend(sm.vertices, r2, b);
    PutStrAppend(sm.name, r1, b);
  }

  lemma {:induction false} SubmeshesAppend(subs: seq<Submesh>, a: seq<byte>, b: seq<byte>)
    requires forall i :: 0 <= i < |subs| ==> SubmeshOk(subs[i])
    ensures EncodeSubmeshes(subs, a) + b == EncodeSubmeshes(subs, a + b)
  {
    if subs != [] {
      SubmeshesAppend(subs[1..], a, b);
      SubmeshAppend(subs[0], EncodeSubmeshes(subs[1..], a), b);
    }
  }

  lemma ModelAppend(m: Model, a: seq<byte>, b: seq<byte>)
    requires ModelOk(m)
    ensures EncodeModel(m, a) + b == EncodeModel(m, a + b)
  {
    var r4 := EncodeSubmeshes(m.submeshes, a);
    var r3 := Put32(|m.submeshes|, r4);
    var r2 := Put32(m.header3, r3);
    var r1 := Put32(m.header2, r2);
    var r0 := Put32(m.header1, r1);
    SubmeshesAppend(m.submeshes, a, b);
    Put32Append(|m.submeshes|, r4, b);
    Put32Append(m.header3, r3, b);
    Put32Append(m.header2, r2, b);
    Put32Append(m.header1, r1, b);
    Put8Append(m.headerByte, r0, b);
  }

  /** A file cut short anywhere inside a model's encoding yields no model. */
  lemma TruncatedModelFails(m: Model, k: nat)
    requires ModelOk(m) && k < |EncodeModel(m, [])|
    ensures DecodeModel(EncodeModel(m, [])[..k]) == None
  {
    ModelPut(m, []);
    ProperPrefixFails(EncodeModel(m, []), k);
  }

  /** When a model ends exactly at the end of the file, no shorter prefix of
      the file holds a model. */
  lemma ProperPrefixFails(e: seq<byte>, k: nat)
    requires DecodeModel(e).Some? && DecodeModel(e).value.rest == [] && k < |e|
    ensures DecodeModel(e[..k]) == None
  {
    var p, q := e[..k], e[k..];
    assert e == p + q && q != [];
    if DecodeModel(p).Some? {
      ModelExtends(p, q);
    }
  }

  /** Bytes appended after a decodable model do not change the model read;
      they only follow it. */
  lemma ModelExtends(p: seq<byte>, q: seq<byte>)
    requires DecodeModel(p).Some?
    ensures DecodeModel(p + q) == Some(Parsed(DecodeModel(p).value.item, DecodeModel(p).value.rest + q))
  {
    var m', r := DecodeModel(p).value.item, DecodeModel(p).value.rest;
    ModelExact(p);
    ModelAppend(m', r, q);
    ModelPut(m', r + q);
  }

  /** read_file reads a one-byte header, three header words and the submesh
      count (17 bytes in all), then exactly that many submeshes in file order. */
  lemma ModelHeader(s: seq<byte>)
    requires DecodeModel(s).Some?
    ensures var p := DecodeModel(s).value;
      && p.item.headerByte == s[0]
      && p.item.header1 == LeValue(s[1..5])
      && p.item.header2 == LeValue(s[5..9])
      && p.item.header3 == LeValue(s[9..13])
      && |p.item.submeshes| == LeValue(s[13..17])
      && Repeat(DecodeSubmesh, s[17..], |p.item.submeshes|) == Some(Parsed(p.item.submeshes, p.rest))
  {
    var h, r0 := U8Split(s);
    var a, r1 := U32Split(r0);
    var b, r2 := U32Split(r1);
    var c, r3 := U32Split(r2);
    var n, r4 := U32Split(r3);
    var subs, rest := Repeat(DecodeSubmesh, r4, n).value.item, Repeat(DecodeSubmesh, r4, n).value.rest;
    ModelFields(s, h, r0, a, r1, b, r2, c, r3, n, r4, subs, rest);
    assert r0 == s[1..] && r1 == s[5..] && r2 == s[9..] && r3 == s[13..] && r4 == s[17..];
    assert r0[..4] == s[1..5] && r1[..4] == s[5..9] && r2[..4] == s[9..13] && r3[..4] == s[13..17];
  }

}
