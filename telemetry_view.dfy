/**
 * The telemetry page (src/components/TelemetryView.tsx): the field tree built
 * from a telemetry's dotted field names, the pairing of converted and `@RAW`
 * values, the text shown for a value, and the lookup of the telemetry a stream
 * name denotes.
 */
module TelemetryView {
  import opened Wrappers
  import opened SeqLemmas
  import opened JsString
  import opened Tree
  import opened TelemetrySchema
  import CommandLine

  // ---------------------------------------------------------------------------
  // Field tree blueprint

  /** The dotted segments of a field name. */
  function FieldPath(fieldName: string): (path: seq<string>)
    ensures |path| >= 1
  {
    Split(fieldName, '.')
  }

  /** One iteration of the blueprint loop: dig the namespace named by all but
    * the last segment, then set the last segment to a leaf holding the full
    * field name. */
  function AddField(root: Blueprint, fieldName: string): (r: Blueprint)
    ensures NodeAt(Ns(r), FieldPath(fieldName)) == Some(Leaf(fieldName))
  {
    var path := FieldPath(fieldName);
    var dir := path[..|path| - 1];
    assert dir + [path[|path| - 1]] == path;
    PutAt(Dig(root, dir), dir, path[|path| - 1], Leaf(fieldName))
  }

  /** The blueprint of a list of field names, added in order. */
  function FieldBlueprint(names: seq<string>): (r: Blueprint)
    ensures names != [] ==> NodeAt(Ns(r), FieldPath(names[|names| - 1])) == Some(Leaf(names[|names| - 1]))
  {
    if names == [] then map[] else AddField(FieldBlueprint(names[..|names| - 1]), names[|names| - 1])
  }

  /** The blueprint of one more name adds that name to the blueprint so far. */
  lemma FieldBlueprintStep(names: seq<string>, i: nat)
    requires i < |names|
    ensures FieldBlueprint(names[..i + 1]) == AddField(FieldBlueprint(names[..i]), names[i])
  {
    assert names[..i + 1][..i] == names[..i];
  }



  /** Adding a field is digging its directory and setting its basename there. */
  lemma AddFieldIsPutAt(root: Blueprint, fieldName: string, dir: seq<string>, basename: string)
    requires dir + [basename] == FieldPath(fieldName)
    ensures AddField(root, fieldName) == PutAt(Dig(root, dir), dir, basename, Leaf(fieldName))
  {
    SnocParts(dir, basename, FieldPath(fieldName));
  }

  /** `buildTelemetryFieldTreeBlueprintFromSchema`; the namespace `dig`
    * returns is updated through the tree that holds it. */
  method BuildBlueprint(tlm: Telemetry) returns (root: Blueprint)
    ensures root == FieldBlueprint(FieldNames(tlm.fields))
  {
    var fieldNames := FieldNames(tlm.fields);
    root := map[];
    var i := 0;
    while i < |fieldNames|
      invariant 0 <= i <= |fieldNames|
      invariant root == FieldBlueprint(fieldNames[..i])
    {
      var fieldName := fieldNames[i];
      var path := Split(fieldName, '.');
      var basename := path[|path| - 1];
      var dir := path[..|path| - 1];
      assert dir + [basename] == path;
      FieldBlueprintStep(fieldNames, i);
      AddFieldIsPutAt(root, fieldName, dir, basename);
      var ns := Dig(root, dir);
      root := PutAt(ns, dir, basename, Leaf(fieldName));
      i := i + 1;
    }
    assert fieldNames[..i] == fieldNames;
  }

  /** No field's path is a prefix of (or equal to) another field's path. */
  predicate PrefixFree(names: seq<string>)
  {
    forall i, j :: 0 <= i < |names| && 0 <= j < |names| && i != j ==> !(FieldPath(names[i]) <= FieldPath(names[j]))
  }

  /** Adding a field keeps every leaf whose path neither contains nor lies
    * within the new field's path. */
  lemma AddFieldKeepsLeaf(root: Blueprint, fieldName: string, q: seq<string>, key: string)
    requires NodeAt(Ns(root), q) == Some(Leaf(key))
    requires !(q <= FieldPath(fieldName)) && !(FieldPath(fieldName) <= q)
    ensures NodeAt(Ns(AddField(root, fieldName)), q) == Some(Leaf(key))
  {
    var path := FieldPath(fieldName);
    var dir := path[..|path| - 1];
    assert dir + [path[|path| - 1]] == path;
    assert dir <= path;
    DigKeepsLeafAt(root, dir, q, key);
    PutAtKeepsLeafAt(Dig(root, dir), dir, path[|path| - 1], Leaf(fieldName), q, key);
  }

  lemma PrefixFreeFront(names: seq<string>)
    requires PrefixFree(names) && names != []
    ensures PrefixFree(names[..|names| - 1])
  {
    var front := names[..|names| - 1];
    forall i, j | 0 <= i < |front| && 0 <= j < |front| && i != j
      ensures !(FieldPath(front[i]) <= FieldPath(front[j]))
    {
      assert front[i] == names[i] && front[j] == names[j];
    }
  }

  /** When no field path is a prefix of another, every field ends up as a leaf
    * holding its own name at its own dotted path. */
  lemma {:induction false} FieldBlueprintLeaves(names: seq<string>, k: nat)
    requires PrefixFree(names) && k < |names|
    ensures NodeAt(Ns(FieldBlueprint(names)), FieldPath(names[k])) == Some(Leaf(names[k]))
    decreases |names|
  {
    var n := |names|;
    var front := names[..n - 1];
    assert FieldBlueprint(names) == AddField(FieldBlueprint(front), names[n - 1]);
    if k < n - 1 {
      PrefixFreeFront(names);
      assert front[k] == names[k];
      FieldBlueprintLeaves(front, k);
      PrefixFreePair(names, k, n - 1);
      AddFieldKeepsLeaf(FieldBlueprint(front), names[n - 1], FieldPath(names[k]), names[k]);
    }
  }

  lemma PrefixFreePair(names: seq<string>, i: nat, j: nat)
    requires PrefixFree(names) && i < |names| && j < |names| && i != j
    ensures !(FieldPath(names[i]) <= FieldPath(names[j])) && !(FieldPath(names[j]) <= FieldPath(names[i]))
  {
  }

  /** The paths of a dot-free name and of that name with one more segment. */
  lemma FieldPathOfParts(a: string, b: string)
    requires '.' !in a && '.' !in b
    ensures FieldPath(a) == [a] && FieldPath(a + "." + b) == [a, b]
  {
    SplitJoin([a], '.');
    assert Join([a, b], '.') == a + "." + b by {
      assert [a, b][1..] == [b];
    }
    SplitJoin([a, b], '.');
  }

  /** The blueprint of two fields, added in order. */
  lemma FieldBlueprintPair(x: string, y: string)
    ensures FieldBlueprint([x, y]) == AddField(AddField(map[], x), y)
  {
    var names := [x, y];
    FieldBlueprintStep(names, 0);
    FieldBlueprintStep(names, 1);
    assert names[..0] == [] && names[..2] == names;
  }

  /** Without the prefix condition a later field can hide an earlier one:
    * adding `a` after `a.b` replaces the namespace `a` by a leaf, so `a.b` is
    * gone from the tree. */
  lemma LaterFieldReplacesNamespace(a: string, b: string)
    requires '.' !in a && '.' !in b
    ensures NodeAt(Ns(FieldBlueprint([a + "." + b, a])), [a]) == Some(Leaf(a))
    ensures NodeAt(Ns(FieldBlueprint([a + "." + b, a])), [a, b]) == None
  {
    var ab := a + "." + b;
    FieldPathOfParts(a, b);
    FieldBlueprintPair(ab, a);
    var first := AddField(map[], ab);
    assert [] + [a] == [a];
    AddFieldIsPutAt(first, a, [], a);
    assert Dig(first, []) == first;
    var root := first[a := Leaf(a)];
    assert AddField(first, a) == root;
    assert [a, b][1..] == [b];
    assert NodeAt(Ns(root), [a, b]) == NodeAt(Leaf(a), [b]);
  }

  /** In the other order both fields survive: the leaf `a` is pushed down to
    * the path `a.""` when `a.b` is added. */
  lemma EarlierFieldPushedDown(a: string, b: string)
    requires '.' !in a && '.' !in b && b != ""
    ensures NodeAt(Ns(FieldBlueprint([a, a + "." + b])), [a, b]) == Some(Leaf(a + "." + b))
    ensures NodeAt(Ns(FieldBlueprint([a, a + "." + b])), [a, ""]) == Some(Leaf(a))
  {
    FieldPathOfParts(a, b);
    FieldBlueprintPair(a, a + "." + b);
    assert [] + [a] == [a];
    AddFieldIsPutAt(map[], a, [], a);
    assert AddField(map[], a) == map[a := Leaf(a)];
    LeafPushedDown(a, b);
  }

  lemma LeafPushedDown(a: string, b: string)
    requires '.' !in a && '.' !in b && b != ""
    ensures NodeAt(Ns(AddField(map[a := Leaf(a)], a + "." + b)), [a, ""]) == Some(Leaf(a))
  {
    var first: Blueprint := map[a := Leaf(a)];
    FieldPathOfParts(a, b);
    AddFieldIsPutAt(first, a + "." + b, [a], b);
    DigPushesLeafDown(first, [a]);
    var dug := Dig(first, [a]);
    assert a in dug && dug[a].Ns?;
    assert [a, ""][1..] == [""] && [""][1..] == [];
    assert NodeAt(Ns(dug), [a, ""]) == NodeAt(dug[a], [""]);
    assert NodeAt(dug[a], [""]) == NodeAt(dug[a].ns[""], []);
    assert !([a] + [b] <= [a, ""]);
    PutAtKeepsLeafAt(dug, [a], b, Leaf(a + "." + b), [a, ""], a);
  }

  // ---------------------------------------------------------------------------
  // Field values

  /** `TmivField["value"]`; `Unset` is the protobuf oneof with no case set. */
  datatype FieldValue =
    | Integer(integer: int)
    | Double(double: JsFloat)
    | Bytes(bytes: seq<Byte>)
    | Enum(enumName: string)
    | Text(text: string)
    | Unset

  datatype TmivField = TmivField(name: string, value: FieldValue)

  /** What a leaf of the field tree holds: the converted and the raw value of
    * its field, each `null` when the frame does not carry it. */
  datatype ValuePair = ValuePair(converted: Option<FieldValue>, raw: Option<FieldValue>)

  const RawSuffix: string := "@RAW"

  predicate IsRaw(name: string)
  {
    |name| >= |RawSuffix| && name[|name| - |RawSuffix|..] == RawSuffix
  }

  /** `name.slice(0, -4)` on a raw field name. */
  function StripRaw(name: string): string
    requires IsRaw(name)
  {
    name[..|name| - |RawSuffix|]
  }

  /** The map of converted fields after the loop has seen `fields`. */
  function ConvertedFields(fields: seq<TmivField>): (r: map<string, FieldValue>)
    ensures forall name :: name in r ==> !IsRaw(name)
    ensures |r| <= |fields|
  {
    if fields == [] then map[]
    else
      var m := ConvertedFields(fields[..|fields| - 1]);
      var f := fields[|fields| - 1];
      if IsRaw(f.name) then m else m[f.name := f.value]
  }

  /** Whether `field` is the raw value of the field `name`. */
  predicate RawOf(field: TmivField, name: string)
  {
    IsRaw(field.name) && StripRaw(field.name) == name
  }

  /** The map of raw fields after the loop has seen `fields`, keyed by the
    * name without its `@RAW` suffix. */
  function RawFields(fields: seq<TmivField>): (r: map<string, FieldValue>)
    ensures |r| <= |fields|
  {
    if fields == [] then map[]
    else
      var m := RawFields(fields[..|fields| - 1]);
      var f := fields[|fields| - 1];
      if IsRaw(f.name) then m[StripRaw(f.name) := f.value] else m
  }

  /** The loop of `buildTelemetryFieldTree` that sorts fields into the two maps. */
  method SplitFields(fields: seq<TmivField>) returns (converted: map<string, FieldValue>, raw: map<string, FieldValue>)
    ensures converted == ConvertedFields(fields) && raw == RawFields(fields)
  {
    converted := map[];
    raw := map[];
    var i := 0;
    while i < |fields|
      invariant 0 <= i <= |fields|
      invariant converted == ConvertedFields(fields[..i]) && raw == RawFields(fields[..i])
    {
      var field := fields[i];
      if IsRaw(field.name) {
        raw := raw[StripRaw(field.name) := field.value];
      } else {
        converted := converted[field.name := field.value];
      }
      assert fields[..i + 1][..i] == fields[..i];
      i := i + 1;
    }
    assert fields[..i] == fields;
  }

  /** Whether `field` is the converted value of the field `name`. */
  predicate ConvertedOf(field: TmivField, name: string)
  {
    field.name == name && !IsRaw(name)
  }

  /** One more field changes the converted entry of `name` only when it is
    * the converted value of `name`. */
  lemma ConvertedFieldsStep(fields: seq<TmivField>, name: string)
    requires fields != []
    ensures var front := ConvertedFields(fields[..|fields| - 1]);
      var last := fields[|fields| - 1];
      && (name in ConvertedFields(fields) <==> ConvertedOf(last, name) || name in front)
      && (ConvertedOf(last, name) ==> ConvertedFields(fields)[name] == last.value)
      && (!ConvertedOf(last, name) && name in front ==> ConvertedFields(fields)[name] == front[name])
  {
  }

  /** A converted entry exists exactly for the names of fields without the
    * `@RAW` suffix. */
  lemma {:induction false} ConvertedFieldsKeys(fields: seq<TmivField>, name: string)
    ensures name in ConvertedFields(fields) <==> exists i :: 0 <= i < |fields| && ConvertedOf(fields[i], name)
    decreases |fields|
  {
    if fields != [] {
      var n := |fields|;
      var front := fields[..n - 1];
      ConvertedFieldsKeys(front, name);
      ConvertedFieldsStep(fields, name);
      assert forall i :: 0 <= i < n - 1 ==> front[i] == fields[i];
    }
  }

  /** The converted entry of a name holds the value of the last field of that
    * name: later fields overwrite earlier ones. */
  lemma {:induction false} ConvertedLastWins(fields: seq<TmivField>, name: string, i: nat)
    requires i < |fields| && ConvertedOf(fields[i], name)
    requires forall j :: i < j < |fields| ==> !ConvertedOf(fields[j], name)
    ensures name in ConvertedFields(fields) && ConvertedFields(fields)[name] == fields[i].value
    decreases |fields|
  {
    var n := |fields|;
    var front := fields[..n - 1];
    ConvertedFieldsStep(fields, name);
    if i < n - 1 {
      assert front[i] == fields[i];
      assert forall j :: i < j < |front| ==> front[j] == fields[j];
      ConvertedLastWins(front, name, i);
    }
  }

  /** One more field changes the raw entry of `name` only when it is the raw
    * value of `name`. */
  lemma RawFieldsStep(fields: seq<TmivField>, name: string)
    requires fields != []
    ensures var front := RawFields(fields[..|fields| - 1]);
      var last := fields[|fields| - 1];
      && (name in RawFields(fields) <==> RawOf(last, name) || name in front)
      && (RawOf(last, name) ==> RawFields(fields)[name] == last.value)
      && (!RawOf(last, name) && name in front ==> RawFields(fields)[name] == front[name])
  {
  }

  /** A raw entry exists exactly for the names of `@RAW` fields with the suffix
    * removed. */
  lemma {:induction false} RawFieldsKeys(fields: seq<TmivField>, name: string)
    ensures name in RawFields(fields) <==> exists i :: 0 <= i < |fields| && RawOf(fields[i], name)
    decreases |fields|
  {
    if fields != [] {
      var n := |fields|;
      var front := fields[..n - 1];
      RawFieldsKeys(front, name);
      RawFieldsStep(fields, name);
      assert forall i :: 0 <= i < n - 1 ==> front[i] == fields[i];
    }
  }

  /** The raw entry of a name holds the value of the last raw field of that
    * name: later fields overwrite earlier ones. */
  lemma {:induction false} RawLastWins(fields: seq<TmivField>, name: string, i: nat)
    requires i < |fields| && RawOf(fields[i], name)
    requires forall j :: i < j < |fields| ==> !RawOf(fields[j], name)
    ensures name in RawFields(fields) && RawFields(fields)[name] == fields[i].value
    decreases |fields|
  {
    var n := |fields|;
    var front := fields[..n - 1];
    RawFieldsStep(fields, name);
    if i < n - 1 {
      assert front[i] == fields[i];
      assert forall j :: i < j < |front| ==> front[j] == fields[j];
      RawLastWins(front, name, i);
    }
  }

  /** `map.get(key) ?? null`. */
  function Get(m: map<string, FieldValue>, key: string): Option<FieldValue>
  {
    if key in m then Some(m[key]) else None
  }

  /** `buildTelemetryFieldTree`: sort the fields into the two maps, then build
    * the tree with each leaf's pair of lookups. */
  method BuildFieldTree(blueprint: Blueprint, fields: seq<TmivField>) returns (tree: map<string, TreeNode<ValuePair>>)
    ensures tree == BuildTree(blueprint, PairOf(fields))
  {
    var converted, raw := SplitFields(fields);
    tree := BuildTree(blueprint, key => ValuePair(Get(converted, key), Get(raw, key)));
    assert (key => ValuePair(Get(converted, key), Get(raw, key))) == PairOf(fields);
  }

  /** The value pair a leaf key gets from a frame's fields. */
  function PairOf(fields: seq<TmivField>): string -> ValuePair
  {
    key => ValuePair(Get(ConvertedFields(fields), key), Get(RawFields(fields), key))
  }

  /** Every leaf of the field tree, at the place of the blueprint leaf for
    * field `key`, holds the converted value of `key` and the value of
    * `key@RAW`, each `null` when the frame has no such field. */
  lemma FieldTreeLeaf(blueprint: Blueprint, fields: seq<TmivField>, path: seq<string>, key: string)
    requires NodeAt(Ns(blueprint), path) == Some(Leaf(key))
    ensures TreeNodeAt(TreeNs(BuildTree(blueprint, PairOf(fields))), path) ==
      Some(TreeLeaf(ValuePair(Get(ConvertedFields(fields), key), Get(RawFields(fields), key))))
  {
    BuildTreeLeaves(blueprint, PairOf(fields), path);
  }

  // ---------------------------------------------------------------------------
  // prettyprintValue

  /** `padStart(2, "0")`. */
  function PadStart2(s: string): (r: string)
    ensures |s| >= 2 ==> r == s
    ensures |s| < 2 ==> |r| == 2 && r[2 - |s|..] == s && forall i :: 0 <= i < 2 - |s| ==> r[i] == '0'
  {
    if |s| >= 2 then s else seq(2 - |s|, _ => '0') + s
  }

  /** `[...bytes].map((x) => x.toString(16).padStart(2, "0")).join("")`. */
  function BytesText(bytes: seq<Byte>): (r: string)
    ensures |r| == 2 * |bytes|
  {
    if bytes == [] then ""
    else
      PaddedHexByte(bytes[|bytes| - 1]);
      BytesText(bytes[..|bytes| - 1]) + PadStart2(NatToHex(bytes[|bytes| - 1]))
  }

  /** `prettyprintValue`: `None` is the `undefined` an unset value gives. The
    * text of a double (`toFixed(3)`) is supplied by the caller. */
  function PrettyPrint(value: Option<FieldValue>, toFixed3: JsFloat -> string): (r: Option<string>)
    ensures r.None? <==> value == Some(Unset)
  {
    match value
    case None => Some("****")
    case Some(Integer(n)) => Some(IntToDecimal(n))
    case Some(Bytes(bytes)) => Some(BytesText(bytes))
    case Some(Enum(e)) => Some(e)
    case Some(Double(d)) => Some(toFixed3(d))
    case Some(Text(t)) => Some(t)
    case Some(Unset) => None
  }

  /** A byte's padded hex text is its two-digit form. */
  lemma PaddedHexByte(b: Byte)
    ensures PadStart2(NatToHex(b)) == HexByte(b)
  {
    var h := NatToHex(b);
    if b < 16 {
      assert h == [LowerHexDigit(b)];
      assert PadStart2(h) == ['0'] + h;
    } else {
      assert NatToHex(b / 16) == [LowerHexDigit(b / 16)];
      assert h == [LowerHexDigit(b / 16), LowerHexDigit(b % 16)];
    }
  }

  /** The two digits of `HexByte(b)` read back to `b`. */
  lemma HexByteDigits(b: Byte)
    ensures 16 * HexDigitValue(HexByte(b)[0]) + HexDigitValue(HexByte(b)[1]) == b
  {
    var h := HexByte(b);
    assert h[..1] == [h[0]] && h[..1][..0] == [];
    assert HexValue(h) == 16 * HexValue(h[..1]) + HexDigitValue(h[1]);
  }

  /** Reading two more digits appends the byte they denote. */
  lemma DecodeHexSnoc(u: string, h: string, front: seq<Byte>, b: Byte)
    requires |u| % 2 == 0 && AllHexDigits(u) && CommandLine.DecodeHex(u) == front
    requires |h| == 2 && AllHexDigits(h) && 16 * HexDigitValue(h[0]) + HexDigitValue(h[1]) == b
    ensures |u + h| % 2 == 0 && AllHexDigits(u + h) && CommandLine.DecodeHex(u + h) == front + [b]
  {
    var t := u + h;
    assert |t| == 2 * (|front| + 1);
    EvenLength(t, |front| + 1);
    AllHexDigitsConcat(u, h);
    PairParts(u, h);
    CommandLine.DecodeHexStep(t);
  }

  /** Bytes print as two lower-case hex digits each. */
  lemma {:induction false} BytesTextShape(bytes: seq<Byte>)
    ensures var t := BytesText(bytes); |t| == 2 * |bytes| && AllHexDigits(t) && IsLowerHex(t)
    decreases |bytes|
  {
    if bytes != [] {
      BytesTextShape(bytes[..|bytes| - 1]);
      PaddedHexByte(bytes[|bytes| - 1]);
    }
  }

  /** Two hex digits per byte, high nibble first. */
  function HexBytesText(bytes: seq<Byte>): string
  {
    if bytes == [] then "" else HexBytesText(bytes[..|bytes| - 1]) + HexByte(bytes[|bytes| - 1])
  }

  /** The padded `toString(16)` of each byte is its two-digit form. */
  lemma {:induction false} BytesTextIsHexBytes(bytes: seq<Byte>)
    ensures BytesText(bytes) == HexBytesText(bytes)
    decreases |bytes|
  {
    if bytes != [] {
      BytesTextIsHexBytes(bytes[..|bytes| - 1]);
      PaddedHexByte(bytes[|bytes| - 1]);
    }
  }

  /** The two-digit text of bytes has two hex digits per byte. */
  lemma {:induction false} HexBytesTextShape(bytes: seq<Byte>)
    ensures |HexBytesText(bytes)| == 2 * |bytes| && |HexBytesText(bytes)| % 2 == 0
    ensures AllHexDigits(HexBytesText(bytes))
    decreases |bytes|
  {
    if bytes != [] {
      var front := bytes[..|bytes| - 1];
      HexBytesTextShape(front);
      AllHexDigitsConcat(HexBytesText(front), HexByte(bytes[|bytes| - 1]));
    }
    EvenLength(HexBytesText(bytes), |bytes|);
  }

  /** The two-digit text of bytes reads back to the same bytes. */
  lemma {:induction false} HexBytesTextRoundTrip(bytes: seq<Byte>)
    ensures |HexBytesText(bytes)| == 2 * |bytes| && AllHexDigits(HexBytesText(bytes))
    ensures CommandLine.DecodeHex(HexBytesText(bytes)) == bytes
    decreases |bytes|
  {
    HexBytesTextShape(bytes);
    if bytes != [] {
      var n := |bytes|;
      var front := bytes[..n - 1];
      HexBytesTextRoundTrip(front);
      HexBytesTextShape(front);
      HexByteDigits(bytes[n - 1]);
      DecodeHexSnoc(HexBytesText(front), HexByte(bytes[n - 1]), front, bytes[n - 1]);
      FrontLast(bytes);
    }
  }

  /** The printed text reads back, two digits per byte, to the same bytes. */
  lemma BytesTextRoundTrip(bytes: seq<Byte>)
    ensures |BytesText(bytes)| % 2 == 0 && AllHexDigits(BytesText(bytes))
    ensures CommandLine.DecodeHex(BytesText(bytes)) == bytes
  {
    BytesTextIsHexBytes(bytes);
    HexBytesTextRoundTrip(bytes);
    EvenLength(BytesText(bytes), |bytes|);
  }

  /** What the page shows: `****` for a missing value, the decimal text of an
    * integer (which `parseInt` reads back), enum and string text as they are,
    * and for bytes 2 hex digits per byte that a `0x` command parameter
    * reads back to the same bytes. */
  lemma PrettyPrintSpec(value: Option<FieldValue>, toFixed3: JsFloat -> string)
    ensures var r := PrettyPrint(value, toFixed3);
      && (r.None? <==> value == Some(Unset))
      && (value.None? ==> r == Some("****"))
      && (value.Some? && value.value.Integer? ==> r == Some(IntToDecimal(value.value.integer)))
      && (value.Some? && value.value.Integer? ==> r.Some? && CommandLine.ParseInt(r.value) == Some(value.value.integer))
      && (value.Some? && value.value.Bytes? ==>
            r.Some? && |r.value| == 2 * |value.value.bytes| &&
            CommandLine.ParseParameter("0x" + r.value, x => NonFinite) ==
              if value.value.bytes == [] then Failure(CommandLine.InvalidHexBytesSyntax)
              else Success(CommandLine.BytesValue(value.value.bytes, CommandLine.BigEndian(value.value.bytes))))
      && (value.Some? && value.value.Enum? ==> r == Some(value.value.enumName))
      && (value.Some? && value.value.Text? ==> r == Some(value.value.text))
  {
    if value.Some? && value.value.Integer? {
      CommandLine.ParseIntOfDecimal(value.value.integer);
    }
    if value.Some? && value.value.Bytes? {
      var bytes := value.value.bytes;
      var t := BytesText(bytes);
      BytesTextShape(bytes);
      BytesTextRoundTrip(bytes);
      CommandLine.HexParameter(t, x => NonFinite);
      var source := "0x" + t;
      assert StartsWith(source, "0x") && source[2..] == t;
      if bytes != [] {
        assert CommandLine.PadEven(t) == t;
        CommandLine.DecodeHexValue(t);
      }
    }
  }

  // ---------------------------------------------------------------------------
  // telemetryDef

  datatype LookupError = NoSuchComponent | NoSuchTelemetry

  /** The name at `index` among the dotted parts of a stream name, if there is
    * one (`undefined` otherwise, which no entry name equals). */
  function PartAt(parts: seq<string>, index: nat): Option<string>
  {
    if index < |parts| then Some(parts[index]) else None
  }

  /** `telemetryDef`: the 2nd and 3rd dotted parts of the stream name select
    * the component and the telemetry (first match). A miss leaves `find` with
    * `undefined`, and destructuring it throws a TypeError, which is the error
    * here. Parts after the 3rd are ignored. */
  function TelemetryDef(tmivName: string, components: seq<(string, TelemetryComponent)>): (r: Result<Telemetry, LookupError>)
    ensures var parts := Split(tmivName, '.');
      && (r.Success? ==> |parts| >= 3 && Find(components, parts[1]).Some?
                         && Find(Find(components, parts[1]).value.telemetries, parts[2]) == Some(r.value))
      && (|parts| < 2 ==> r == Failure(NoSuchComponent))
      && (|parts| >= 2 && Find(components, parts[1]).None? ==> r == Failure(NoSuchComponent))
      && (|parts| == 2 && Find(components, parts[1]).Some? ==> r == Failure(NoSuchTelemetry))
      && (|parts| >= 3 && Find(components, parts[1]).Some? ==>
            var t := Find(Find(components, parts[1]).value.telemetries, parts[2]);
            && (t.None? ==> r == Failure(NoSuchTelemetry))
            && (t.Some? ==> r == Success(t.value)))
  {
    var parts := Split(tmivName, '.');
    var componentName := PartAt(parts, 1);
    var telemetryName := PartAt(parts, 2);
    var component := if componentName.Some? then Find(components, componentName.value) else None;
    if component.None? then Failure(NoSuchComponent)
    else
      var telemetry := if telemetryName.Some? then Find(component.value.telemetries, telemetryName.value) else None;
      if telemetry.None? then Failure(NoSuchTelemetry)
      else Success(telemetry.value)
  }

  /** A stream name `channel.component.telemetry` built from dot-free names
    * selects exactly that component's telemetry of that name, whatever the
    * channel. */
  lemma TelemetryDefOfStreamName(channel: string, component: string, telemetry: string,
                                 components: seq<(string, TelemetryComponent)>)
    requires '.' !in channel && '.' !in component && '.' !in telemetry
    ensures var r := TelemetryDef(StreamName(channel, component, telemetry), components);
      var c := Find(components, component);
      && (c.None? ==> r == Failure(NoSuchComponent))
      && (c.Some? ==> r == (var t := Find(c.value.telemetries, telemetry);
                            if t.None? then Failure(NoSuchTelemetry) else Success(t.value)))
  {
    var parts := [channel, component, telemetry];
    assert Join(parts, '.') == StreamName(channel, component, telemetry) by {
      assert Join(parts[2..], '.') == telemetry;
      assert Join(parts[1..], '.') == component + "." + telemetry;
    }
    SplitJoin(parts, '.');
  }
}
