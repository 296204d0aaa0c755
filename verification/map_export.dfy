/**
 * The pure parts of the Blender level exporter (`MapExporter.execute` in
 * scripts/ozymap_export.py): the game directory cut from the output path, the grouping of
 * a collection's objects by material, and the terrain record written to the level file.
 * A Python `str` is a sequence of Unicode scalar values.
 */
module MapExport {
  import opened Wrappers
  import opened Bytes
  import opened Utf8
  import opened OzyCommon
  import opened InsertionOrder
  import Io

  type Str = seq<Scalar>

  const BACKSLASH: Scalar := 0x5C
  const SLASH: Scalar := 0x2F
  const UNDERSCORE: Scalar := 0x5F

  // ---------------------------------------------------------------- the directory

  /** `str.split(sep)`: the pieces between separators, at least one, none holding `sep`. */
  function Split(s: Str, sep: Scalar): (r: seq<Str>)
    ensures |r| >= 1
    ensures forall i | 0 <= i < |r| :: sep !in r[i]
  {
    if s == [] then [[]]
    else
      var rest := Split(s[1..], sep);
      if s[0] == sep then [[]] + rest
      else [[s[0]] + rest[0]] + rest[1..]
  }

  /** `sep.join(parts)`. */
  function Join(parts: seq<Str>, sep: Scalar): Str
    requires |parts| >= 1
  {
    if |parts| == 1 then parts[0] else parts[0] + [sep] + Join(parts[1..], sep)
  }

  /** Joining the pieces of a split with the same separator gives the string back. */
  lemma {:induction false} JoinSplit(s: Str, sep: Scalar)
    ensures Join(Split(s, sep), sep) == s
    decreases |s|
  {
    if s != [] {
      var rest := Split(s[1..], sep);
      JoinSplit(s[1..], sep);
      assert s == [s[0]] + s[1..];
      if s[0] == sep {
        assert Split(s, sep)[1..] == rest;
      } else if |rest| > 1 {
        assert Split(s, sep)[1..] == rest[1..];
        assert Join(rest, sep) == rest[0] + [sep] + Join(rest[1..], sep);
      }
    }
  }

  /** A piece without the separator, followed by more text, starts the first piece of the split. */
  lemma {:induction false} SplitPrefix(a: Str, t: Str, sep: Scalar)
    requires sep !in a
    ensures Split(a + t, sep) == [a + Split(t, sep)[0]] + Split(t, sep)[1..]
    decreases |a|
  {
    if a != [] {
      var r := Split(t, sep);
      assert (a + t)[1..] == a[1..] + t;
      assert (a + t)[0] == a[0] != sep;
      SplitPrefix(a[1..], t, sep);
      var rest := Split(a[1..] + t, sep);
      assert rest[0] == a[1..] + r[0] && rest[1..] == r[1..];
      assert [a[0]] + (a[1..] + r[0]) == a + r[0];
    } else {
      var r := Split(t, sep);
      assert a + t == t && a + r[0] == r[0];
      assert r == [r[0]] + r[1..];
    }
  }

  /** Splitting pieces joined with a separator none of them holds gives the pieces back. */
  lemma {:induction false} SplitJoin(parts: seq<Str>, sep: Scalar)
    requires |parts| >= 1 && forall i | 0 <= i < |parts| :: sep !in parts[i]
    ensures Split(Join(parts, sep), sep) == parts
    decreases |parts|
  {
    if |parts| == 1 {
      SplitPrefix(parts[0], [], sep);
      assert parts[0] + [] == parts[0];
    } else {
      var tail := Join(parts[1..], sep);
      SplitJoin(parts[1..], sep);
      assert ([sep] + tail)[1..] == tail;
      assert Split([sep] + tail, sep) == [[]] + Split(tail, sep);
      assert parts[0] + [] == parts[0];
      SplitPrefix(parts[0], [sep] + tail, sep);
      assert parts[0] + [sep] + tail == parts[0] + ([sep] + tail);
      assert parts == [parts[0]] + parts[1..];
    }
  }

  /** Every occurrence of `from` replaced by `to`. */
  function Replace(s: Str, from: Scalar, to: Scalar): (r: Str)
    ensures |r| == |s|
  {
    seq(|s|, i requires 0 <= i < |s| => if s[i] == from then to else s[i])
  }

  /** Replacing one separator by another in joined pieces joins them with the other. */
  lemma {:induction false} ReplaceJoin(parts: seq<Str>, from: Scalar, to: Scalar)
    requires |parts| >= 1 && forall i | 0 <= i < |parts| :: from !in parts[i]
    ensures Replace(Join(parts, from), from, to) == Join(parts, to)
    decreases |parts|
  {
    if |parts| > 1 {
      ReplaceJoin(parts[1..], from, to);
      var head, tail := parts[0], Join(parts[1..], from);
      assert Join(parts, from) == head + [from] + tail;
      forall i | 0 <= i < |Join(parts, from)|
        ensures Replace(Join(parts, from), from, to)[i] == Join(parts, to)[i]
      {
        if i > |head| {
          assert Join(parts, from)[i] == tail[i - |head| - 1];
        }
      }
    }
  }

  /** Each piece followed by a slash: what the loop builds from the pieces it visits. */
  function Slashed(ps: seq<Str>): Str
  {
    if ps == [] then [] else Slashed(ps[..|ps| - 1]) + ps[|ps| - 1] + [SLASH]
  }

  /** The first `k` pieces slashed, then the others joined with slashes, join all of them. */
  lemma {:induction false} SlashedThenJoin(ps: seq<Str>, k: nat)
    requires k < |ps|
    ensures Slashed(ps[..k]) + Join(ps[k..], SLASH) == Join(ps, SLASH)
  {
    if k == 0 {
      assert ps[0..] == ps;
    } else {
      SlashedThenJoin(ps, k - 1);
      assert ps[..k][..k - 1] == ps[..k - 1];
      assert ps[k - 1..][1..] == ps[k..];
    }
  }

  /**
   * The game's base directory: every piece of the path split on backslashes but the last
   * two, each followed by a slash. With two pieces or fewer it is empty; otherwise it is
   * the path with its backslashes turned into slashes, up to the second-to-last piece.
   */
  method Directory(path: Str) returns (directory: Str)
    ensures |Split(path, BACKSLASH)| <= 2 ==> directory == []
    ensures var splits := Split(path, BACKSLASH);
            |splits| >= 2 ==> directory + Join(splits[|splits| - 2..], SLASH) == Replace(path, BACKSLASH, SLASH)
    ensures BACKSLASH !in directory
    ensures directory != [] ==> directory[|directory| - 1] == SLASH
  {
    var splits := Split(path, BACKSLASH);
    directory := [];
    var i := 0;
    while i < |splits| - 2
      invariant 0 <= i && (i <= |splits| - 2 || i == 0)
      invariant directory == Slashed(splits[..i])
      invariant BACKSLASH !in directory
      invariant directory != [] ==> directory[|directory| - 1] == SLASH
    {
      assert splits[..i + 1][..i] == splits[..i];
      directory := directory + splits[i] + [SLASH];
      i := i + 1;
    }
    if |splits| >= 2 {
      SlashedThenJoin(splits, |splits| - 2);
      JoinSplit(path, BACKSLASH);
      ReplaceJoin(splits, BACKSLASH, SLASH);
    }
  }

  // ---------------------------------------------------------------- grouping by material

  /** The positions holding `m`, in ascending order. */
  function IndicesOf(mats: seq<Str>, m: Str): (r: seq<nat>)
    ensures forall j | 0 <= j < |r| :: r[j] < |mats| && mats[r[j]] == m
    ensures forall j, k | 0 <= j < k < |r| :: r[j] < r[k]
    decreases |mats|
  {
    if mats == [] then []
    else
      var init := mats[..|mats| - 1];
      IndicesOf(init, m) + (if mats[|mats| - 1] == m then [|mats| - 1] else [])
  }

  /** Every position holding `m` is listed. */
  lemma {:induction false} IndicesOfComplete(mats: seq<Str>, m: Str, i: nat)
    requires i < |mats| && mats[i] == m
    ensures i in IndicesOf(mats, m)
    decreases |mats|
  {
    if i < |mats| - 1 {
      var init := mats[..|mats| - 1];
      IndicesOfComplete(init, m, i);
    } else {
      assert IndicesOf(mats, m)[|IndicesOf(mats, m)| - 1] == i;
    }
  }

  /** A material no object uses has no positions. */
  lemma IndicesOfAbsent(mats: seq<Str>, m: Str)
    ensures m !in mats ==> IndicesOf(mats, m) == []
  {
    var r := IndicesOf(mats, m);
    if r != [] {
      assert mats[r[0]] == m;
    }
  }

  /** Each object is in exactly one group: the one of its own material. */
  lemma EachObjectInOneGroup(mats: seq<Str>, i: nat, m: Str)
    requires i < |mats|
    ensures i in IndicesOf(mats, m) <==> m == mats[i]
  {
    if m == mats[i] {
      IndicesOfComplete(mats, m, i);
    }
  }

  /**
   * The `mat_ob_map` loop over one collection, given each object's active material name:
   * the materials in order of first use, and for each the indices of the objects using it,
   * in ascending order.
   */
  method GroupByMaterial(mats: seq<Str>) returns (keys: seq<Str>, groups: map<Str, seq<nat>>)
    ensures keys == Distinct(mats)
    ensures forall m :: m in groups <==> m in mats
    ensures forall m | m in groups :: groups[m] == IndicesOf(mats, m)
  {
    keys, groups := [], map[];
    for i := 0 to |mats|
      invariant keys == Distinct(mats[..i])
      invariant groups == Grouped(mats[..i])
      invariant forall m :: m in groups <==> m in keys
    {
      var m := mats[i];
      assert mats[..i + 1][..i] == mats[..i];
      DistinctMembers(mats[..i], m);
      if m in groups {
        groups := groups[m := groups[m] + [i]];
      } else {
        groups := groups[m := [i]];
        keys := keys + [m];
      }
    }
    assert mats[..|mats|] == mats;
    GroupedSound(mats);
  }

  /** The dictionary the loop has built after the objects of `mats`. */
  function Grouped(mats: seq<Str>): map<Str, seq<nat>>
    decreases |mats|
  {
    if mats == [] then map[]
    else
      var i := |mats| - 1;
      var before := Grouped(mats[..i]);
      if mats[i] in before then before[mats[i] := before[mats[i]] + [i]] else before[mats[i] := [i]]
  }

  lemma {:induction false} GroupedSound(mats: seq<Str>)
    ensures GroupsOf(mats, Grouped(mats))
    decreases |mats|
  {
    if mats != [] {
      var i := |mats| - 1;
      GroupedSound(mats[..i]);
      GroupsStep(mats, i, Grouped(mats[..i]));
      assert mats[..i + 1] == mats;
    }
  }

  /** `groups` lists, for each material of `mats` and no other, the objects that use it. */
  ghost predicate GroupsOf(mats: seq<Str>, groups: map<Str, seq<nat>>) {
    && (forall m :: m in groups <==> m in mats)
    && (forall m | m in groups :: groups[m] == IndicesOf(mats, m))
  }

  /** One step of the grouping loop keeps `GroupsOf`. */
  lemma GroupsStep(mats: seq<Str>, i: nat, groups: map<Str, seq<nat>>)
    requires i < |mats| && GroupsOf(mats[..i], groups)
    ensures mats[i] in groups ==> GroupsOf(mats[..i + 1], groups[mats[i] := groups[mats[i]] + [i]])
    ensures mats[i] !in groups ==> GroupsOf(mats[..i + 1], groups[mats[i] := [i]])
  {
    var m := mats[i];
    if m in groups {
      GroupsExtended(mats, i, groups, groups[m := groups[m] + [i]]);
    } else {
      IndicesOfAbsent(mats[..i], m);
      assert IndicesOf(mats[..i], m) + [i] == [i];
      GroupsExtended(mats, i, groups, groups[m := [i]]);
    }
  }

  /** Adding object `i` to its material's list, the others untouched, keeps `GroupsOf`. */
  lemma GroupsExtended(mats: seq<Str>, i: nat, groups: map<Str, seq<nat>>, after: map<Str, seq<nat>>)
    requires i < |mats| && GroupsOf(mats[..i], groups)
    requires after == groups[mats[i] := IndicesOf(mats[..i], mats[i]) + [i]]
    ensures GroupsOf(mats[..i + 1], after)
  {
    forall m' | m' in after
      ensures after[m'] == IndicesOf(mats[..i + 1], m')
    {
      IndicesOfSnoc(mats, i, m');
    }
    forall m'
      ensures m' in after <==> m' in mats[..i + 1]
    {
      SnocMembers(mats, i, m');
    }
  }

  lemma SnocMembers<T>(xs: seq<T>, i: nat, x: T)
    requires i < |xs|
    ensures x in xs[..i + 1] <==> x in xs[..i] || x == xs[i]
  {
    assert xs[..i + 1] == xs[..i] + [xs[i]];
  }

  /** One more object adds its position to its own material's list and no other. */
  lemma IndicesOfSnoc(mats: seq<Str>, i: nat, m: Str)
    requires i < |mats|
    ensures IndicesOf(mats[..i + 1], m) == IndicesOf(mats[..i], m) + (if mats[i] == m then [i] else [])
  {
    assert mats[..i + 1][..i] == mats[..i];
  }

  // ---------------------------------------------------------------- the terrain record

  /** `"_terrain.ozy"`. */
  const TERRAIN_SUFFIX: Str := [0x5F, 0x74, 0x65, 0x72, 0x72, 0x61, 0x69, 0x6E, 0x2E, 0x6F, 0x7A, 0x79]

  /** `"%s_%s_terrain.ozy" % (level_name, mat)`. */
  function RecordName(level: Str, mat: Str): Str {
    level + [UNDERSCORE] + mat + TERRAIN_SUFFIX
  }

  /**
   * The start of a material's record in the level file: its model name as a Pascal string,
   * then the instance count 1 as a u32. The name's prefix is its UTF-8 byte count (the
   * corrected `write_pascal_strings`; see `RecordWritersAgreeOnAscii` for the writer as written).
   */
  function TerrainRecord(level: Str, mat: Str): (r: Result<seq<Byte>, PyError>)
    ensures r.Ok? <==> |Encode(RecordName(level, mat))| < TWO_32
  {
    assert [RecordName(level, mat)][0] == RecordName(level, mat);
    var name :- WritePascalStrings([RecordName(level, mat)]);
    Ok(name + LeU32(1))
  }

  /** The record as the exporter writes it, with the character count as the name's prefix. */
  function TerrainRecordAsWritten(level: Str, mat: Str): (r: Result<seq<Byte>, PyError>)
    ensures r.Ok? <==> |RecordName(level, mat)| < TWO_32
  {
    assert [RecordName(level, mat)][0] == RecordName(level, mat);
    var name :- WritePascalStringsAsWritten([RecordName(level, mat)]);
    Ok(name + LeU32(1))
  }

  /**
   * The game reads the record back: one string, the UTF-8 bytes of the model name, then the
   * instance count 1.
   */
  lemma TerrainRecordReadsBack(level: Str, mat: Str, rest: seq<Byte>)
    requires TerrainRecord(level, mat).Ok?
    ensures var file := TerrainRecord(level, mat).value + rest;
            && Io.ReadPascalStrings(file, 1) == Ok(([Encode(RecordName(level, mat))], LeU32(1) + rest))
            && Io.ReadU32(LeU32(1) + rest) == Ok((1, rest))
  {
    var name := RecordName(level, mat);
    var written := WritePascalStrings([name]).value;
    PascalStringsRoundTrip([name], LeU32(1) + rest);
    assert EncodeAll([name]) == [Encode(name)];
    Associate(written, LeU32(1), rest);
    Io.ReadU32RoundTrip(1, rest);
  }

  lemma Associate<T>(a: seq<T>, b: seq<T>, c: seq<T>)
    ensures (a + b) + c == a + (b + c)
  {
  }

  /** With ASCII level and material names, the record as written is the corrected record. */
  lemma RecordWritersAgreeOnAscii(level: Str, mat: Str)
    requires forall i | 0 <= i < |level| :: level[i] < 0x80
    requires forall i | 0 <= i < |mat| :: mat[i] < 0x80
    ensures TerrainRecordAsWritten(level, mat) == TerrainRecord(level, mat)
  {
    var name := RecordName(level, mat);
    RecordNameAscii(level, mat);
    assert [name][0] == name;
    WritersAgreeOnAscii([name]);
  }

  /** The model name of ASCII level and material names is ASCII. */
  lemma RecordNameAscii(level: Str, mat: Str)
    requires forall i | 0 <= i < |level| :: level[i] < 0x80
    requires forall i | 0 <= i < |mat| :: mat[i] < 0x80
    ensures forall j | 0 <= j < |RecordName(level, mat)| :: RecordName(level, mat)[j] < 0x80
  {
    var name := RecordName(level, mat);
    forall j | 0 <= j < |name|
      ensures name[j] < 0x80
    {
      if j < |level| {
        assert name[j] == level[j];
      } else if j == |level| {
        assert name[j] == UNDERSCORE;
      } else if j < |level| + 1 + |mat| {
        assert name[j] == mat[j - |level| - 1];
      } else {
        assert name[j] == TERRAIN_SUFFIX[j - |level| - 1 - |mat|];
      }
    }
  }
}
