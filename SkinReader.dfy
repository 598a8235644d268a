/** The importer's reading code: an open file whose every read advances a
    shared position, and the read_material / read_submesh / read_file
    procedures that read a .skin file field by field, building their lists
    with append loops. Each procedure is proved to do exactly what the
    matching decoder of SkinFormat says, and a procedure that stops on a
    short read leaves the position at the end of the file. */
module SkinReader {
  import opened LittleEndian
  import opened SkinFormat
  import SkinProofs

  /** The file opened with open(filepath, "rb"): its bytes and the current
      position. The position never passes the end. */
  class Reader {
    const data: seq<byte>
    var pos: nat

    ghost predicate Valid()
      reads this
    {
      pos <= |data|
    }

    /** The bytes from the position to the end of the file. */
    function Remaining(): seq<byte>
      reads this
      requires Valid()
    {
      data[pos..]
    }

    constructor (bytes: seq<byte>)
      ensures Valid() && data == bytes && pos == 0
    {
      data := bytes;
      pos := 0;
    }

    /** f.read(n): at most n bytes, fewer when the file ends first. */
    method Read(n: nat) returns (b: seq<byte>)
      requires Valid()
      modifies this
      ensures Valid()
      ensures TakeUpTo(old(Remaining()), n) == Parsed(b, Remaining())
    {
      ghost var s := data[pos..];
      var end := if n <= |data| - pos then pos + n else |data|;
      b := data[pos..end];
      pos := end;
      if n <= |s| {
        assert s[..n] == b && s[n..] == data[pos..];
      } else {
        assert s == b && data[pos..] == [];
      }
    }

    /** f.read(n) handed to struct.unpack, which raises unless it got all n
        bytes. A short read has moved the position to the end. */
    method ReadExactly(n: nat) returns (b: Option<seq<byte>>)
      requires Valid()
      modifies this
      ensures Valid()
      ensures Agrees(Take(old(Remaining()), n), b, Remaining())
      ensures b.None? ==> pos == |data|
    {
      var got := Read(n);
      if |got| < n {
        return None;
      }
      return Some(got);
    }
  }

  /** A read procedure did what the decoder says of the bytes that were left
      before it: it failed where the decoder fails, and otherwise returned the
      decoder's item and left the position just past it. */
  ghost predicate Agrees<T>(spec: Option<Parsed<T>>, r: Option<T>, rest: seq<byte>)
  {
    match spec
    case None => r.None?
    case Some(p) => r == Some(p.item) && rest == p.rest
  }

  /** struct.unpack("<" + "I" * k, f.read(4 * k)): k words from one read. */
  function Words(s: seq<byte>, k: nat): (r: Option<Parsed<seq<u32>>>)
    ensures r.Some? <==> 4 * k <= |s|
    ensures r.Some? ==> |r.value.item| == k && r.value.rest == s[4 * k..]
  {
    var b :- Take(s, 4 * k);
    Some(Parsed(Unpack32(b.item), b.rest))
  }

  /** Words read together are the same words read one at a time. */
  lemma WordsAreU32s(s: seq<byte>, k: nat, i: nat)
    requires Words(s, k).Some? && i < k
    ensures U32(s[4 * i..]).Some?
    ensures Words(s, k).value.item[i] == U32(s[4 * i..]).value.item
    ensures U32(s[4 * i..]).value.rest == s[4 * i + 4..]
  {
    var b := s[..4 * k];
    assert b[4 * i .. 4 * i + 4] == s[4 * i..][..4];
  }

  lemma TwoWords(s: seq<byte>)
    requires Words(s, 2).Some?
    ensures var w := Words(s, 2).value;
      U32(s) == Some(Parsed(w.item[0], s[4..])) && U32(s[4..]) == Some(Parsed(w.item[1], w.rest))
  {
    WordsAreU32s(s, 2, 0);
    WordsAreU32s(s, 2, 1);
    assert s[4 * 0..] == s;
  }

  /** The vertex (or normal) section as one read of 3 * count words after
      the count. */
  lemma Vec3ArrayByWords(s: seq<byte>)
    requires U32(s).Some?
    ensures var n := U32(s).value.item;
      var w := Words(U32(s).value.rest, n as nat * 3);
      && (w.None? ==> Vec3Array(s) == None)
      && (w.Some? ==> |w.value.item| % 3 == 0 && Vec3Array(s) == Some(Parsed(Vec3s(w.value.item), w.value.rest)))
  {
    var n: nat := U32(s).value.item;
    assert 4 * (n * 3) == 12 * n;
  }

  /** The UV section as one read of 2 * count words after the count. */
  lemma Vec2ArrayByWords(s: seq<byte>)
    requires U32(s).Some?
    ensures var n := U32(s).value.item;
      var w := Words(U32(s).value.rest, n as nat * 2);
      && (w.None? ==> Vec2Array(s) == None)
      && (w.Some? ==> |w.value.item| % 2 == 0 && Vec2Array(s) == Some(Parsed(Vec2s(w.value.item), w.value.rest)))
  {
    var n: nat := U32(s).value.item;
    assert 4 * (n * 2) == 8 * n;
  }

  /** struct.unpack("<B", f.read(1)). */
  method ReadU8(r: Reader) returns (x: Option<byte>)
    requires r.Valid()
    modifies r
    ensures r.Valid()
    ensures Agrees(U8(old(r.Remaining())), x, r.Remaining())
    ensures x.None? ==> r.pos == |r.data|
  {
    var b := r.ReadExactly(1);
    if b.None? {
      return None;
    }
    return Some(b.value[0]);
  }

  /** struct.unpack("<I", f.read(4)); also "<f", kept as its bit pattern. */
  method ReadU32(r: Reader) returns (x: Option<u32>)
    requires r.Valid()
    modifies r
    ensures r.Valid()
    ensures Agrees(U32(old(r.Remaining())), x, r.Remaining())
    ensures x.None? ==> r.pos == |r.data|
  {
    var b := r.ReadExactly(4);
    if b.None? {
      return None;
    }
    var v := b.value;
    return Some(v[0] as int + 0x100 * v[1] as int + 0x1_0000 * v[2] as int + 0x100_0000 * v[3] as int);
  }

  /** struct.unpack("<" + "I" * k, f.read(4 * k)). */
  method ReadWords(r: Reader, k: nat) returns (ws: Option<seq<u32>>)
    requires r.Valid()
    modifies r
    ensures r.Valid()
    ensures Agrees(Words(old(r.Remaining()), k), ws, r.Remaining())
    ensures ws.None? ==> r.pos == |r.data|
  {
    var b := r.ReadExactly(4 * k);
    if b.None? {
      return None;
    }
    return Some(Unpack32(b.value));
  }

  /** A length-prefixed name: the u32 length, then f.read(length) when the
      length is positive and the empty name otherwise. */
  method ReadName(r: Reader) returns (name: Option<seq<byte>>)
    requires r.Valid()
    modifies r
    ensures r.Valid()
    ensures Agrees(Str(old(r.Remaining())), name, r.Remaining())
    ensures name.None? ==> r.pos == |r.data|
  {
    var len := ReadU32(r);
    if len.None? {
      return None;
    }
    if len.value > 0 {
      var b := r.Read(len.value);
      return Some(b);
    }
    return Some([]);
  }

  /** read_material: two colours, alpha, two colours, the flag, then the
      three texture names and the material name. */
  method ReadMaterial(r: Reader) returns (m: Option<Material>)
    requires r.Valid()
    modifies r
    ensures r.Valid()
    ensures Agrees(DecodeMaterial(old(r.Remaining())), m, r.Remaining())
    ensures m.None? ==> r.pos == |r.data|
  {
    ghost var s := r.Remaining();
    var colors12 := ReadWords(r, 2);
    if colors12.None? {
      return None;
    }
    TwoWords(s);
    ghost var s1 := r.Remaining();
    var alpha := ReadU32(r);
    if alpha.None? {
      return None;
    }
    ghost var s2 := r.Remaining();
    var colors34 := ReadWords(r, 2);
    if colors34.None? {
      return None;
    }
    TwoWords(s2);
    var flag := ReadU8(r);
    if flag.None? {
      return None;
    }
    var texture1 := ReadName(r);
    if texture1.None? {
      return None;
    }
    var texture2 := ReadName(r);
    if texture2.None? {
      return None;
    }
    var texture3 := ReadName(r);
    if texture3.None? {
      return None;
    }
    var name := ReadName(r);
    if name.None? {
      return None;
    }
    return Some(Material(colors12.value[0], colors12.value[1], alpha.value, colors34.value[0], colors34.value[1],
                         flag.value, texture1.value, texture2.value, texture3.value, name.value));
  }

  /** The append loop over a flat f32 array that builds one triple per
      three values, in order. */
  method Triples(ws: seq<u32>) returns (items: seq<Vec3>)
    requires |ws| % 3 == 0
    ensures items == Vec3s(ws)
  {
    items := [];
    for i := 0 to |ws| / 3
      invariant |items| == i
      invariant forall j :: 0 <= j < i ==> items[j] == Vec3(ws[j * 3], ws[j * 3 + 1], ws[j * 3 + 2])
    {
      items := items + [Vec3(ws[i * 3], ws[i * 3 + 1], ws[i * 3 + 2])];
    }
  }

  /** The append loop that builds one pair per two values, in order. */
  method Pairs(ws: seq<u32>) returns (items: seq<Vec2>)
    requires |ws| % 2 == 0
    ensures items == Vec2s(ws)
  {
    items := [];
    for i := 0 to |ws| / 2
      invariant |items| == i
      invariant forall j :: 0 <= j < i ==> items[j] == Vec2(ws[j * 2], ws[j * 2 + 1])
    {
      items := items + [Vec2(ws[i * 2], ws[i * 2 + 1])];
    }
  }

  /** A u32 count, then count * 3 f32 read at once and gathered into triples
      by an append loop (the vertex and normal sections of read_submesh). */
  method ReadVec3Array(r: Reader) returns (vs: Option<seq<Vec3>>)
    requires r.Valid()
    modifies r
    ensures r.Valid()
    ensures Agrees(Vec3Array(old(r.Remaining())), vs, r.Remaining())
    ensures vs.None? ==> r.pos == |r.data|
  {
    ghost var s := r.Remaining();
    var count := ReadU32(r);
    if count.None? {
      return None;
    }
    Vec3ArrayByWords(s);
    var n: nat := count.value;
    var items: seq<Vec3> := [];
    if n > 0 {
      var flat := ReadWords(r, n * 3);
      if flat.None? {
        return None;
      }
      items := Triples(flat.value);
    }
    return Some(items);
  }

  /** A u32 count, then count * 2 f32 read at once and gathered into pairs
      by an append loop (the UV section of read_submesh). */
  method ReadVec2Array(r: Reader) returns (vs: Option<seq<Vec2>>)
    requires r.Valid()
    modifies r
    ensures r.Valid()
    ensures Agrees(Vec2Array(old(r.Remaining())), vs, r.Remaining())
    ensures vs.None? ==> r.pos == |r.data|
  {
    ghost var s := r.Remaining();
    var count := ReadU32(r);
    if count.None? {
      return None;
    }
    Vec2ArrayByWords(s);
    var n: nat := count.value;
    var items: seq<Vec2> := [];
    if n > 0 {
      var flat := ReadWords(r, n * 2);
      if flat.None? {
        return None;
      }
      items := Pairs(flat.value);
    }
    return Some(items);
  }

  /** A u32 count, then that many u32 (the face-index section). */
  method ReadU32Array(r: Reader) returns (ws: Option<seq<u32>>)
    requires r.Valid()
    modifies r
    ensures r.Valid()
    ensures Agrees(U32Array(old(r.Remaining())), ws, r.Remaining())
    ensures ws.None? ==> r.pos == |r.data|
  {
    var count := ReadU32(r);
    if count.None? {
      return None;
    }
    var n: nat := count.value;
    if n > 0 {
      ws := ReadWords(r, n);
      return;
    }
    return Some([]);
  }

  /** The material-id section as one read of 2 * count bytes after the count. */
  lemma U16ArrayByTake(s: seq<byte>)
    requires U32(s).Some?
    ensures var n: nat := U32(s).value.item;
      var b := Take(U32(s).value.rest, n * 2);
      && (b.None? ==> U16Array(s) == None)
      && (b.Some? ==> |b.value.item| % 2 == 0 && U16Array(s) == Some(Parsed(Unpack16(b.value.item), b.value.rest)))
  {
  }

  /** A u32 count, then struct.unpack("<" + "H" * count, f.read(count * 2))
      (the material-id section). */
  method ReadU16Array(r: Reader) returns (hs: Option<seq<u16>>)
    requires r.Valid()
    modifies r
    ensures r.Valid()
    ensures Agrees(U16Array(old(r.Remaining())), hs, r.Remaining())
    ensures hs.None? ==> r.pos == |r.data|
  {
    ghost var s := r.Remaining();
    var count := ReadU32(r);
    if count.None? {
      return None;
    }
    U16ArrayByTake(s);
    var n: nat := count.value;
    if n > 0 {
      var b := r.ReadExactly(n * 2);
      if b.None? {
        return None;
      }
      return Some(Unpack16(b.value));
    }
    return Some([]);
  }

  /** The outcome of decoding the rest of a list after `done` was read. */
  ghost function Prefixed<T>(done: seq<T>, o: Option<Parsed<seq<T>>>): Option<Parsed<seq<T>>>
  {
    match o
    case None => None
    case Some(p) => Some(Parsed(done + p.item, p.rest))
  }

  lemma PrefixedNothing<T>(o: Option<Parsed<seq<T>>>)
    ensures Prefixed([], o) == o
  {
    if o.Some? {
      assert [] + o.value.item == o.value.item;
    }
  }

  lemma PrefixedTwice<T>(done: seq<T>, x: T, o: Option<Parsed<seq<T>>>)
    ensures Prefixed(done, Prefixed([x], o)) == Prefixed(done + [x], o)
  {
    if o.Some? {
      assert done + ([x] + o.value.item) == (done + [x]) + o.value.item;
    }
  }

  /** A repeated read whose next item fails fails as a whole, whatever was
      read before it. */
  lemma RepeatFails<T>(decode: seq<byte> -> Option<Parsed<T>>, s: seq<byte>, n: nat, done: seq<T>)
    requires n > 0 && decode(s).None?
    ensures Prefixed(done, Repeat(decode, s, n)) == None
  {
  }

  /** The material section of read_submesh: material_count, then the loop
      that reads the materials. */
  method ReadMaterials(r: Reader) returns (ms: Option<seq<Material>>)
    requires r.Valid()
    modifies r
    ensures r.Valid()
    ensures Agrees(MaterialArray(old(r.Remaining())), ms, r.Remaining())
    ensures ms.None? ==> r.pos == |r.data|
  {
    var count := ReadU32(r);
    if count.None? {
      return None;
    }
    ms := ReadMaterialList(r, count.value);
  }

  /** The material loop: read_material n times, appending each result. */
  method ReadMaterialList(r: Reader, n: nat) returns (ms: Option<seq<Material>>)
    requires r.Valid()
    modifies r
    ensures r.Valid()
    ensures Agrees(Repeat(DecodeMaterial, old(r.Remaining()), n), ms, r.Remaining())
    ensures ms.None? ==> r.pos == |r.data|
  {
    ghost var s := r.Remaining();
    var items: seq<Material> := [];
    PrefixedNothing(Repeat(DecodeMaterial, s, n));
    var i := 0;
    ghost var left: nat := n;
    while i < n
      invariant r.Valid() && i <= n && left == n - i
      invariant Repeat(DecodeMaterial, s, n) == Prefixed(items, Repeat(DecodeMaterial, r.Remaining(), left))
    {
      ghost var before := r.Remaining();
      var m := ReadMaterial(r);
      if m.None? {
        RepeatFails(DecodeMaterial, before, left, items);
        return None;
      }
      ghost var left' := left - 1;
      SkinProofs.RepeatStep(DecodeMaterial, before, left, left', m.value, r.Remaining());
      PrefixedTwice(items, m.value, Repeat(DecodeMaterial, r.Remaining(), left'));
      items := items + [m.value];
      i := i + 1;
      left := left';
    }
    assert items + [] == items;
    return Some(items);
  }

  lemma FourWords(s: seq<byte>)
    requires Words(s, 4).Some?
    ensures var w := Words(s, 4).value;
      DecodeTail(s) == Some(Parsed(Tail(w.item[0], w.item[1], w.item[2], w.item[3]), w.rest))
  {
    WordsAreU32s(s, 4, 0);
    WordsAreU32s(s, 4, 1);
    WordsAreU32s(s, 4, 2);
    WordsAreU32s(s, 4, 3);
    assert s[4 * 0..] == s;
  }

  /** struct.unpack("<IIII", f.read(16)): the four reserved words. */
  method ReadTail(r: Reader) returns (t: Option<Tail>)
    requires r.Valid()
    modifies r
    ensures r.Valid()
    ensures Agrees(DecodeTail(old(r.Remaining())), t, r.Remaining())
    ensures t.None? ==> r.pos == |r.data|
  {
    ghost var s := r.Remaining();
    var ws := ReadWords(r, 4);
    if ws.None? {
      return None;
    }
    FourWords(s);
    return Some(Tail(ws.value[0], ws.value[1], ws.value[2], ws.value[3]));
  }

  /** The parsing half of read_submesh: every section in file order, the
      face indices grouped by threes. */
  method ReadSubmesh(r: Reader) returns (sm: Option<Submesh>)
    requires r.Valid()
    modifies r
    ensures r.Valid()
    ensures Agrees(DecodeSubmesh(old(r.Remaining())), sm, r.Remaining())
    ensures sm.None? ==> r.pos == |r.data|
  {
    ghost var s0 := r.Remaining();
    var name := ReadName(r);
    if name.None? {
      return None;
    }
    ghost var s1 := r.Remaining();
    var vertices := ReadVec3Array(r);
    if vertices.None? {
      return None;
    }
    ghost var s2 := r.Remaining();
    var raw := ReadU32Array(r);
    if raw.None? {
      return None;
    }
    var faces := GroupFaces(raw.value);
    ghost var s3 := r.Remaining();
    var uvFlag := ReadU8(r);
    if uvFlag.None? {
      return None;
    }
    ghost var s4 := r.Remaining();
    var uvs := ReadVec2Array(r);
    if uvs.None? {
      return None;
    }
    ghost var s5 := r.Remaining();
    var normalFlag := ReadU8(r);
    if normalFlag.None? {
      return None;
    }
    ghost var s6 := r.Remaining();
    var normals := ReadVec3Array(r);
    if normals.None? {
      return None;
    }
    ghost var s7 := r.Remaining();
    var extraFlag := ReadU8(r);
    if extraFlag.None? {
      return None;
    }
    ghost var s8 := r.Remaining();
    var reserved := ReadU32(r);
    if reserved.None? {
      return None;
    }
    ghost var s9 := r.Remaining();
    var materials := ReadMaterials(r);
    if materials.None? {
      return None;
    }
    ghost var s10 := r.Remaining();
    var matids := ReadU16Array(r);
    if matids.None? {
      return None;
    }
    ghost var s11 := r.Remaining();
    var tail := ReadTail(r);
    if tail.None? {
      return None;
    }
    SkinProofs.SubmeshFields(s0, name.value, s1, vertices.value, s2, raw.value, s3, uvFlag.value, s4,
                             uvs.value, s5, normalFlag.value, s6, normals.value, s7, extraFlag.value, s8,
                             reserved.value, s9, materials.value, s10, matids.value, s11, tail.value, r.Remaining());
    return Some(Submesh(name.value, vertices.value, faces, uvFlag.value, uvs.value, normalFlag.value,
                        normals.value, extraFlag.value, reserved.value, materials.value, matids.value, tail.value));
  }

  lemma ThreeWords(s: seq<byte>)
    requires Words(s, 3).Some?
    ensures var w := Words(s, 3).value;
      && U32(s) == Some(Parsed(w.item[0], s[4..]))
      && U32(s[4..]) == Some(Parsed(w.item[1], s[8..]))
      && U32(s[8..]) == Some(Parsed(w.item[2], w.rest))
  {
    WordsAreU32s(s, 3, 0);
    WordsAreU32s(s, 3, 1);
    WordsAreU32s(s, 3, 2);
    assert s[4 * 0..] == s;
    assert s[4..][4..] == s[8..];
  }

  /** One step of the submesh loop, in the form the loop invariant uses. */
  lemma SubmeshesPrefixed(done: seq<Submesh>, s: seq<byte>, n: nat, k: nat, sm: Submesh, r: seq<byte>)
    requires n == k + 1 && DecodeSubmesh(s) == Some(Parsed(sm, r))
    ensures Prefixed(done, Repeat(DecodeSubmesh, s, n)) == Prefixed(done + [sm], Repeat(DecodeSubmesh, r, k))
  {
    SkinProofs.RepeatStep(DecodeSubmesh, s, n, k, sm, r);
    PrefixedTwice(done, sm, Repeat(DecodeSubmesh, r, k));
  }

  /** The submesh loop of read_file: read_submesh n times, appending each
      result. */
  method ReadSubmeshes(r: Reader, n: nat) returns (subs: Option<seq<Submesh>>)
    requires r.Valid()
    modifies r
    ensures r.Valid()
    ensures Agrees(Repeat(DecodeSubmesh, old(r.Remaining()), n), subs, r.Remaining())
    ensures subs.None? ==> r.pos == |r.data|
  {
    ghost var s := r.Remaining();
    var submeshes: seq<Submesh> := [];
    PrefixedNothing(Repeat(DecodeSubmesh, s, n));
    var i := 0;
    ghost var left: nat := n;
    while i < n
      invariant r.Valid() && i <= n && left == n - i
      invariant Repeat(DecodeSubmesh, s, n) == Prefixed(submeshes, Repeat(DecodeSubmesh, r.Remaining(), left))
    {
      ghost var before := r.Remaining();
      var sm := ReadSubmesh(r);
      if sm.None? {
        RepeatFails(DecodeSubmesh, before, left, submeshes);
        return None;
      }
      ghost var left' := left - 1;
      SubmeshesPrefixed(submeshes, before, left, left', sm.value, r.Remaining());
      submeshes := submeshes + [sm.value];
      i := i + 1;
      left := left';
    }
    assert submeshes + [] == submeshes;
    return Some(submeshes);
  }

  /** read_file: the header byte, the three header words read at once, the
      submesh count, then read_submesh that many times. The model returned is
      the one the format decoder gives, and there is none exactly when the
      decoder fails. */
  method ReadFile(bytes: seq<byte>) returns (model: Option<Model>)
    ensures match DecodeModel(bytes)
      case None => model.None?
      case Some(p) => model == Some(p.item)
  {
    var r := new Reader(bytes);
    var headerByte := ReadU8(r);
    if headerByte.None? {
      return None;
    }
    ghost var s1 := r.Remaining();
    var headerValues := ReadWords(r, 3);
    if headerValues.None? {
      return None;
    }
    ThreeWords(s1);
    ghost var s2 := r.Remaining();
    var count := ReadU32(r);
    if count.None? {
      return None;
    }
    ghost var s := r.Remaining();
    SkinProofs.ModelAfterCount(bytes, headerByte.value, s1, headerValues.value[0], s1[4..], headerValues.value[1], s1[8..],
                               headerValues.value[2], s2, count.value, s);
    var submeshes := ReadSubmeshes(r, count.value);
    if submeshes.None? {
      return None;
    }
    return Some(Model(headerByte.value, headerValues.value[0], headerValues.value[1], headerValues.value[2], submeshes.value));
  }
}
