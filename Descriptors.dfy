/**
 * The definition reader's lookups and acceptance rules. An XML element of
 * the definition is seen only through the lookups the exporter performs on
 * it: for each tag, the text of its first descendant with that tag (`None`
 * when there is none or it has no text), and for each attribute, its value.
 */
module Descriptors {
  import opened Wrappers
  import opened Text
  import opened Bytes
  import opened AddressSpace
  import opened FieldDecoder
  import opened PatchStatus

  /** The attributes of an `EMBEDDEDDATA` descendant. */
  datatype Embedded = Embedded(
    mmedAddress: Option<string>,
    mmedElementSizeBits: Option<string>,
    mmedTypeFlags: Option<string>,
    mmedRowCount: Option<string>,
    mmedColCount: Option<string>)

  /** A `CATEGORYMEM` descendant and its `category` attribute. */
  datatype CategoryMem = CategoryMem(category: Option<string>)

  /** A `MATH` descendant and its `equation` attribute. */
  datatype Math = Math(equation: Option<string>)

  /** One definition element as the lookups see it. */
  datatype Node = Node(
    embedded: Option<Embedded>,
    addressAttr: Option<string>,
    idAttr: Option<string>,
    memText: Option<string>,
    memoryText: Option<string>,
    addrText: Option<string>,
    titleText: Option<string>,
    nameText: Option<string>,
    labelText: Option<string>,
    descText: Option<string>,
    categoryMem: Option<CategoryMem>,
    unitsText: Option<string>,
    math: Option<Math>,
    decimalPlText: Option<string>,
    maskText: Option<string>,
    indexCountText: Option<string>)

  /** An element none of whose lookups find anything. */
  const EmptyNode := Node(None, None, None, None, None, None, None, None, None, None, None, None, None, None, None, None)

  /** Python's truth value of an optional string: present and non-empty. */
  predicate Truthy(o: Option<string>) {
    o.Some? && o.value != ""
  }

  /** A candidate that the hex-or-decimal idiom accepts. */
  predicate Parses(o: Option<string>) {
    o.Some? && ParseHexOrDecimal(o.value).Some?
  }

  /** The candidate at `i` is the first one that parses. */
  predicate IsFirstParsed(cs: seq<Option<string>>, i: int) {
    0 <= i < |cs| && Parses(cs[i]) && forall j :: 0 <= j < i ==> !Parses(cs[j])
  }

  /** The text of a descendant, stripped, when it has any. */
  function StrippedText(o: Option<string>): (r: Option<string>)
    ensures r.Some? <==> Truthy(o)
  {
    if Truthy(o) then Some(Strip(o.value)) else None
  }

  /** An attribute read through the idiom when it is non-empty. */
  function HexOrDecimalAttr(o: Option<string>): (r: Option<int>)
    ensures r.Some? <==> Parses(o)
    ensures r.Some? ==> r == ParseHexOrDecimal(o.value)
  {
    if Truthy(o) then ParseHexOrDecimal(o.value) else None
  }

  /** The address candidates in the order of the lookup chain. */
  function AddressCandidates(n: Node): seq<Option<string>> {
    [ if n.embedded.Some? then n.embedded.value.mmedAddress else None,
      n.addressAttr,
      StrippedText(n.memText),
      StrippedText(n.memoryText),
      StrippedText(n.addrText) ]
  }

  /**
   * `_get_address`, branch by branch: the embedded `mmedaddress`, the same
   * attribute again when `mmedtypeflags` is present, the `address`
   * attribute, then the stripped text of `mem`, `memory` and `addr`.
   * The result is the first of the five candidates that parses; the second
   * branch never contributes, since it retries a candidate that has already
   * failed.
   */
  function GetAddress(n: Node): (r: Option<int>)
    ensures r.Some? <==> exists i :: 0 <= i < 5 && Parses(AddressCandidates(n)[i])
    ensures forall i :: IsFirstParsed(AddressCandidates(n), i) ==> r == ParseHexOrDecimal(AddressCandidates(n)[i].value)
  {
    var fromEmbedded := if n.embedded.Some? then HexOrDecimalAttr(n.embedded.value.mmedAddress) else None;
    var retried :=
      if n.embedded.Some? && Truthy(n.embedded.value.mmedTypeFlags) then HexOrDecimalAttr(n.embedded.value.mmedAddress)
      else None;
    var cs := AddressCandidates(n);
    if fromEmbedded.Some? then
      assert IsFirstParsed(cs, 0);
      fromEmbedded
    else if retried.Some? then
      retried
    else if HexOrDecimalAttr(n.addressAttr).Some? then
      assert IsFirstParsed(cs, 1);
      HexOrDecimalAttr(n.addressAttr)
    else
      AddressFromText(cs)
  }

  /** The last step of the chain: the first of `mem`, `memory`, `addr` whose stripped text parses. */
  function AddressFromText(cs: seq<Option<string>>): (r: Option<int>)
    requires |cs| == 5 && !Parses(cs[0]) && !Parses(cs[1])
    ensures r.Some? <==> exists i :: 0 <= i < 5 && Parses(cs[i])
    ensures forall i :: IsFirstParsed(cs, i) ==> r == ParseHexOrDecimal(cs[i].value)
  {
    if Parses(cs[2]) then
      assert IsFirstParsed(cs, 2);
      ParseHexOrDecimal(cs[2].value)
    else if Parses(cs[3]) then
      assert IsFirstParsed(cs, 3);
      ParseHexOrDecimal(cs[3].value)
    else if Parses(cs[4]) then
      assert IsFirstParsed(cs, 4);
      ParseHexOrDecimal(cs[4].value)
    else
      None
  }

  /** A malformed embedded address falls through to the `address` attribute. */
  lemma GetAddressFallsThrough(n: Node, bad: string, v: int)
    requires n.embedded.Some? && n.embedded.value.mmedAddress == Some(bad) && ParseHexOrDecimal(bad).None?
    requires n.addressAttr == Some(DecimalText(v))
    ensures GetAddress(n) == Some(v)
  {
    DecimalRoundTrip(v);
    assert IsFirstParsed(AddressCandidates(n), 1);
  }

  /** The candidate texts for a title, in the order they are tried. */
  function TitleCandidates(n: Node): seq<Option<string>> {
    [n.titleText, n.nameText, n.labelText, n.descText]
  }

  /** The candidate at `i` is the first one with non-empty text. */
  predicate IsFirstTruthy(cs: seq<Option<string>>, i: int) {
    0 <= i < |cs| && Truthy(cs[i]) && forall j :: 0 <= j < i ==> !Truthy(cs[j])
  }

  /**
   * `_get_title`: the stripped text of the first of `title`, `name`,
   * `label`, `desc` whose text is non-empty (which may strip to nothing),
   * and `"Unknown"` when none has text.
   */
  function GetTitle(n: Node): (r: string)
    ensures (forall i :: 0 <= i < 4 ==> !Truthy(TitleCandidates(n)[i])) ==> r == "Unknown"
    ensures forall i :: IsFirstTruthy(TitleCandidates(n), i) ==> r == Strip(TitleCandidates(n)[i].value)
  {
    var cs := TitleCandidates(n);
    if Truthy(n.titleText) then
      assert IsFirstTruthy(cs, 0);
      Strip(n.titleText.value)
    else if Truthy(n.nameText) then
      assert IsFirstTruthy(cs, 1);
      Strip(n.nameText.value)
    else if Truthy(n.labelText) then
      assert IsFirstTruthy(cs, 2);
      Strip(n.labelText.value)
    else if Truthy(n.descText) then
      assert IsFirstTruthy(cs, 3);
      Strip(n.descText.value)
    else
      "Unknown"
  }

  /** A title never starts or ends with white space. */
  lemma TitleIsStripped(n: Node)
    ensures var t := GetTitle(n); t == [] || (!IsSpace(t[0]) && !IsSpace(t[|t| - 1]))
  {
    var cs := TitleCandidates(n);
    if exists i :: 0 <= i < 4 && Truthy(cs[i]) {
      var i :| 0 <= i < 4 && Truthy(cs[i]);
      var k := FirstTruthyBelow(cs, i);
      assert GetTitle(n) == Strip(cs[k].value);
    }
  }

  /** Some candidate up to `i` is the first with text, when the candidate at `i` has text. */
  lemma FirstTruthyBelow(cs: seq<Option<string>>, i: int) returns (k: int)
    requires 0 <= i < |cs| && Truthy(cs[i])
    ensures 0 <= k <= i && IsFirstTruthy(cs, k)
  {
    k := 0;
    while !Truthy(cs[k])
      invariant 0 <= k <= i
      invariant forall j :: 0 <= j < k ==> !Truthy(cs[j])
      decreases i - k
    {
      k := k + 1;
    }
  }

  /** The parsed `category` attribute of the element's `CATEGORYMEM`, if any. */
  function CategoryIndex(n: Node): (r: Option<int>)
    ensures r.Some? <==> n.categoryMem.Some? && Parses(n.categoryMem.value.category)
  {
    if n.categoryMem.Some? then HexOrDecimalAttr(n.categoryMem.value.category) else None
  }

  /**
   * `_get_category_name`: `'Uncategorized'` without a usable `CATEGORYMEM`
   * index, the registered name for a known index, `'Unknown'` for an
   * index that names no category.
   */
  function GetCategoryName(categories: map<int, string>, n: Node): (r: string)
    ensures n.categoryMem.None? ==> r == "Uncategorized"
    ensures n.categoryMem.Some? && !Parses(n.categoryMem.value.category) ==> r == "Uncategorized"
    ensures n.categoryMem.Some? && Parses(n.categoryMem.value.category) ==>
      var idx := ParseHexOrDecimal(n.categoryMem.value.category.value).value;
      r == (if idx in categories then categories[idx] else "Unknown")
  {
    match CategoryIndex(n)
    case None => "Uncategorized"
    case Some(idx) => if idx in categories then categories[idx] else "Unknown"
  }

  /** An element that names a registered category by its decimal or hexadecimal index gets that category's name. */
  lemma CategoryRoundTrip(categories: map<int, string>, n: Node, idx: nat)
    requires idx in categories
    requires n.categoryMem == Some(CategoryMem(Some(DecimalText(idx)))) || n.categoryMem == Some(CategoryMem(Some("0x" + HexText(idx))))
    ensures GetCategoryName(categories, n) == categories[idx]
  {
    DecimalRoundTrip(idx);
    HexRoundTrip(idx);
  }

  /** What `_parse_embedded_data` returns: where the field is and how to decode it. */
  datatype FieldSpec = FieldSpec(address: Option<int>, sizeBits: int, signed: bool, lsbFirst: bool, rowCount: int, colCount: int)

  /** The defaults: no address, one unsigned big-endian byte, a 1×1 shape. */
  const DefaultFieldSpec := FieldSpec(None, 8, false, false, 1, 1)

  /** A decimal attribute when it is non-empty and well-formed, else the default. */
  function DecimalAttr(o: Option<string>, default: int): (v: int)
    ensures Truthy(o) && ParseDecimal(o.value).Some? ==> v == ParseDecimal(o.value).value
    ensures !(Truthy(o) && ParseDecimal(o.value).Some?) ==> v == default
  {
    if Truthy(o) then ParseDecimal(o.value).GetOr(default) else default
  }

  /** The type flags read through the idiom, `'0x00'` when absent. */
  function TypeFlags(e: Embedded): (f: Option<int>)
    ensures e.mmedTypeFlags.None? ==> f == Some(0)
  {
    ParseHexOrDecimal(e.mmedTypeFlags.GetOr("0x00"))
  }

  /**
   * The result of `_parse_embedded_data` as a value: each attribute
   * replaces its default only when it is present and well-formed; bit 0 of
   * the type flags selects least-significant-byte-first order and bit 1 a
   * signed field, and malformed flags leave both false.
   */
  function EmbeddedFieldSpec(n: Node): (r: FieldSpec)
    ensures n.embedded.None? ==> r == DefaultFieldSpec
    ensures n.embedded.Some? ==>
      var e := n.embedded.value;
      && (r.address.Some? <==> Parses(e.mmedAddress))
      && (r.address.Some? ==> r.address == ParseHexOrDecimal(e.mmedAddress.value))
      && (TypeFlags(e).None? ==> !r.signed && !r.lsbFirst)
      && (TypeFlags(e).Some? ==> r.lsbFirst == Bit(TypeFlags(e).value, 0) && r.signed == Bit(TypeFlags(e).value, 1))
      && r.sizeBits == DecimalAttr(e.mmedElementSizeBits, 8)
      && r.rowCount == DecimalAttr(e.mmedRowCount, 1)
      && r.colCount == DecimalAttr(e.mmedColCount, 1)
  {
    match n.embedded
    case None => DefaultFieldSpec
    case Some(e) =>
      var flags := TypeFlags(e);
      FieldSpec(
        HexOrDecimalAttr(e.mmedAddress),
        DecimalAttr(e.mmedElementSizeBits, 8),
        flags.Some? && Bit(flags.value, 1),
        flags.Some? && Bit(flags.value, 0),
        DecimalAttr(e.mmedRowCount, 1),
        DecimalAttr(e.mmedColCount, 1))
  }

  /** Bits 0 and 1 of `lsb + 2*signed + 4*other` are `lsb` and `signed`, whatever the other bits. */
  lemma LowTypeFlagBits(lsb: bool, signed: bool, other: int)
    ensures var f := (if lsb then 1 else 0) + (if signed then 2 else 0) + 4 * other;
      Bit(f, 0) == lsb && Bit(f, 1) == signed
  {
    var f := (if lsb then 1 else 0) + (if signed then 2 else 0) + 4 * other;
    BitZero(f);
    BitSucc(f, 0);
    BitZero(f / 2);
    assert f / 2 == (if signed then 1 else 0) + 2 * other;
  }

  /** An embedded descriptor rendered from its fields is read back to those fields. */
  lemma EmbeddedFieldSpecRoundTrip(address: nat, sizeBits: int, signed: bool, lsb: bool, other: nat, rows: int, cols: int)
    ensures var flags := (if lsb then 1 else 0) + (if signed then 2 else 0) + 4 * other;
      var n := EmptyNode.(embedded := Some(Embedded(
        Some("0x" + HexText(address)), Some(DecimalText(sizeBits)), Some("0x" + HexText(flags)),
        Some(DecimalText(rows)), Some(DecimalText(cols)))));
      EmbeddedFieldSpec(n) == FieldSpec(Some(address), sizeBits, signed, lsb, rows, cols)
  {
    var flags := (if lsb then 1 else 0) + (if signed then 2 else 0) + 4 * other;
    HexRoundTrip(address);
    HexRoundTrip(flags);
    DecimalRoundTrip(sizeBits);
    DecimalRoundTrip(rows);
    DecimalRoundTrip(cols);
    LowTypeFlagBits(lsb, signed, other);
    assert |DigitsText(address, 16)| >= 1;
  }

  /** Python's `x.strip()` of a present text, or the given default. */
  function TextOr(o: Option<string>, default: string): string {
    if Truthy(o) then Strip(o.value) else default
  }

  /** `decimalpl` from its stripped text, or the default when absent or malformed. */
  function DecimalPl(n: Node, default: int): (d: int)
    ensures !Truthy(n.decimalPlText) ==> d == default
    ensures Truthy(n.decimalPlText) && ParseDecimal(Strip(n.decimalPlText.value)).Some? ==>
      d == ParseDecimal(Strip(n.decimalPlText.value)).value
    ensures Truthy(n.decimalPlText) && ParseDecimal(Strip(n.decimalPlText.value)).None? ==> d == default
  {
    if Truthy(n.decimalPlText) then ParseDecimal(Strip(n.decimalPlText.value)).GetOr(default) else default
  }

  /** The equation of a `MATH` descendant (`''` when it has none), or `None` without one. */
  function Equation(n: Node): Option<string> {
    match n.math
    case None => None
    case Some(m) => Some(m.equation.GetOr(""))
  }

  /** An `XDFCONSTANT`: where its value is, how to decode it, and how to show it. */
  datatype Scalar = Scalar(
    title: string, address: int, sizeBits: int, signed: bool, lsbFirst: bool,
    unit: string, equation: Option<string>, category: string, decimalPl: int)

  /** `_extract_constants` for one element: kept exactly when its embedded descriptor has an address. */
  function ScalarFromNode(categories: map<int, string>, n: Node): (r: Option<Scalar>)
    ensures r.Some? <==> EmbeddedFieldSpec(n).address.Some?
    ensures r.Some? ==>
      var fs := EmbeddedFieldSpec(n);
      && r.value.address == fs.address.value && r.value.sizeBits == fs.sizeBits
      && r.value.signed == fs.signed && r.value.lsbFirst == fs.lsbFirst
      && r.value.title == GetTitle(n) && r.value.category == GetCategoryName(categories, n)
  {
    var fs := EmbeddedFieldSpec(n);
    match fs.address
    case None => None
    case Some(a) =>
      Some(Scalar(GetTitle(n), a, fs.sizeBits, fs.signed, fs.lsbFirst, TextOr(n.unitsText, ""),
        Equation(n), GetCategoryName(categories, n), DecimalPl(n, 2)))
  }

  /** An `XDFFLAG`: one byte at `address` tested against `mask`. */
  datatype Flag = Flag(title: string, address: int, mask: int, category: string)

  /** The mask from its stripped text, `0x01` when absent or malformed. */
  function Mask(n: Node): (m: int)
    ensures !Truthy(n.maskText) ==> m == DefaultMask
    ensures Truthy(n.maskText) && ParseHexOrDecimal(Strip(n.maskText.value)).Some? ==>
      m == ParseHexOrDecimal(Strip(n.maskText.value)).value
    ensures Truthy(n.maskText) && ParseHexOrDecimal(Strip(n.maskText.value)).None? ==> m == DefaultMask
  {
    if Truthy(n.maskText) then ParseHexOrDecimal(Strip(n.maskText.value)).GetOr(DefaultMask) else DefaultMask
  }

  /** `_extract_flags` for one element: kept exactly when the lookup chain finds an address. */
  function FlagFromNode(categories: map<int, string>, n: Node): (r: Option<Flag>)
    ensures r.Some? <==> GetAddress(n).Some?
    ensures r.Some? ==> r.value.address == GetAddress(n).value && r.value.mask == Mask(n)
  {
    match GetAddress(n)
    case None => None
    case Some(a) => Some(Flag(GetTitle(n), a, Mask(n), GetCategoryName(categories, n)))
  }

  /** One `XDFAXIS` of a table as the extractor records it. */
  datatype Axis = Axis(
    address: Option<int>, count: int, unit: string, equation: Option<string>,
    sizeBits: int, signed: bool, lsbFirst: bool, rowCount: int, colCount: int, decimalPl: int)

  /** The axis `id`, `'unknown'` when absent. */
  function AxisId(n: Node): string {
    n.idAttr.GetOr("unknown")
  }

  /**
   * One axis: the embedded descriptor, `indexcount` (default 1) replaced on
   * the z axis by `row_count * col_count` when the row count exceeds 1, and
   * `decimalpl` defaulting to the table's.
   */
  function AxisFromNode(n: Node, tableDecimalPl: int): Axis {
    var fs := EmbeddedFieldSpec(n);
    var indexCount := if Truthy(n.indexCountText) then ParseDecimal(Strip(n.indexCountText.value)).GetOr(1) else 1;
    var count := if AxisId(n) == "z" && fs.rowCount > 1 then fs.rowCount * fs.colCount else indexCount;
    Axis(fs.address, count, TextOr(n.unitsText, ""), Equation(n), fs.sizeBits, fs.signed, fs.lsbFirst,
      fs.rowCount, fs.colCount, DecimalPl(n, tableDecimalPl))
  }

  /**
   * An axis carries its embedded descriptor unchanged; its count is the
   * z axis's `row_count * col_count` when that has more than one row, else
   * the `indexcount` text (1 when absent or malformed).
   */
  lemma AxisFields(n: Node, tableDecimalPl: int)
    ensures var a, fs := AxisFromNode(n, tableDecimalPl), EmbeddedFieldSpec(n);
      var fromShape := AxisId(n) == "z" && fs.rowCount > 1;
      var indexCount := if Truthy(n.indexCountText) then ParseDecimal(Strip(n.indexCountText.value)) else None;
      && a.address == fs.address && a.sizeBits == fs.sizeBits && a.signed == fs.signed
      && a.lsbFirst == fs.lsbFirst && a.rowCount == fs.rowCount && a.colCount == fs.colCount
      && (fromShape ==> a.count == fs.rowCount * fs.colCount)
      && (!fromShape && indexCount.Some? ==> a.count == indexCount.value)
      && (!fromShape && indexCount.None? ==> a.count == 1)
      && a.unit == TextOr(n.unitsText, "") && a.equation == Equation(n)
      && a.decimalPl == DecimalPl(n, tableDecimalPl)
      && (!Truthy(n.decimalPlText) ==> a.decimalPl == tableDecimalPl)
  {
  }

  /** The axes dictionary: each axis stored under its id, a later axis replacing an earlier one. */
  function AxesMap(axisNodes: seq<Node>, tableDecimalPl: int): map<string, Axis> {
    if axisNodes == [] then map[]
    else
      var last := axisNodes[|axisNodes| - 1];
      AxesMap(axisNodes[..|axisNodes| - 1], tableDecimalPl)[AxisId(last) := AxisFromNode(last, tableDecimalPl)]
  }

  /** The axis at `i` has the id and no later axis has it. */
  predicate IsLastWithId(axisNodes: seq<Node>, i: int, id: string) {
    0 <= i < |axisNodes| && AxisId(axisNodes[i]) == id
    && forall j :: i < j < |axisNodes| ==> AxisId(axisNodes[j]) != id
  }

  /** An id is a key of the axes dictionary exactly when some axis has it. */
  lemma {:induction false} AxesMapKeys(axisNodes: seq<Node>, tableDecimalPl: int, id: string)
    ensures id in AxesMap(axisNodes, tableDecimalPl) <==> exists i :: 0 <= i < |axisNodes| && AxisId(axisNodes[i]) == id
  {
    if axisNodes != [] {
      var init := axisNodes[..|axisNodes| - 1];
      var last := axisNodes[|axisNodes| - 1];
      var m := AxesMap(init, tableDecimalPl);
      assert AxesMap(axisNodes, tableDecimalPl) == m[AxisId(last) := AxisFromNode(last, tableDecimalPl)];
      AxesMapKeys(init, tableDecimalPl, id);
      if exists i :: 0 <= i < |axisNodes| && AxisId(axisNodes[i]) == id {
        var i :| 0 <= i < |axisNodes| && AxisId(axisNodes[i]) == id;
        if i < |init| {
          assert AxisId(init[i]) == id;
        }
      }
      if exists i :: 0 <= i < |init| && AxisId(init[i]) == id {
        var i :| 0 <= i < |init| && AxisId(init[i]) == id;
        assert AxisId(axisNodes[i]) == id;
      }
    }
  }

  /** The dictionary maps an id to the last axis that has it. */
  lemma {:induction false} AxesMapLast(axisNodes: seq<Node>, tableDecimalPl: int, id: string, i: int)
    requires IsLastWithId(axisNodes, i, id)
    ensures id in AxesMap(axisNodes, tableDecimalPl)
    ensures AxesMap(axisNodes, tableDecimalPl)[id] == AxisFromNode(axisNodes[i], tableDecimalPl)
  {
    var init := axisNodes[..|axisNodes| - 1];
    var last := axisNodes[|axisNodes| - 1];
    if i < |init| {
      assert AxisId(last) != id;
      LastWithIdInPrefix(axisNodes, i, id);
      AxesMapLast(init, tableDecimalPl, id, i);
      assert init[i] == axisNodes[i];
    }
  }

  lemma LastWithIdInPrefix(axisNodes: seq<Node>, i: int, id: string)
    requires IsLastWithId(axisNodes, i, id) && i < |axisNodes| - 1
    ensures IsLastWithId(axisNodes[..|axisNodes| - 1], i, id)
  {
    var init := axisNodes[..|axisNodes| - 1];
    forall j | i < j < |init|
      ensures AxisId(init[j]) != id
    {
      assert init[j] == axisNodes[j];
    }
  }

  /** An `XDFTABLE` element: its own lookups and its `XDFAXIS` descendants in document order. */
  datatype TableNode = TableNode(node: Node, axes: seq<Node>)

  /** A table as recorded for reading: its axes by id. */
  datatype Table = Table(title: string, category: string, axes: map<string, Axis>, decimalPl: int)

  /** `_extract_tables` for one element: kept exactly when it has a z axis with an address. */
  function TableFromNode(categories: map<int, string>, t: TableNode): (r: Option<Table>)
    ensures var axes := AxesMap(t.axes, DecimalPl(t.node, 2));
      r.Some? <==> "z" in axes && axes["z"].address.Some?
    ensures r.Some? ==> r.value.axes == AxesMap(t.axes, DecimalPl(t.node, 2))
  {
    var decimalPl := DecimalPl(t.node, 2);
    var axes := AxesMap(t.axes, decimalPl);
    if "z" in axes && axes["z"].address.Some? then
      Some(Table(GetTitle(t.node), GetCategoryName(categories, t.node), axes, decimalPl))
    else None
  }

  /**
   * In terms of the axis elements: a table is kept exactly when it has an
   * axis with id `z` and the last such axis has an embedded address.
   */
  lemma TableAcceptedIff(categories: map<int, string>, t: TableNode, i: int)
    requires IsLastWithId(t.axes, i, "z")
    ensures TableFromNode(categories, t).Some? <==> EmbeddedFieldSpec(t.axes[i]).address.Some?
  {
    AxesMapLast(t.axes, DecimalPl(t.node, 2), "z", i);
  }

  /** A table without any z axis is dropped. */
  lemma TableWithoutZDropped(categories: map<int, string>, t: TableNode)
    requires forall i :: 0 <= i < |t.axes| ==> AxisId(t.axes[i]) != "z"
    ensures TableFromNode(categories, t).None?
  {
    AxesMapKeys(t.axes, DecimalPl(t.node, 2), "z");
  }

  /** The attributes of one `XDFPATCHENTRY`. */
  datatype EntryNode = EntryNode(
    nameAttr: Option<string>, addressAttr: Option<string>, dataSizeAttr: Option<string>,
    patchDataAttr: Option<string>, baseDataAttr: Option<string>)

  /**
   * One patch entry: `address` and `datasize` default to `'0'` and go
   * through the idiom, and an entry where either is malformed is dropped;
   * both patterns are upper-cased.
   */
  function EntryFromNode(e: EntryNode): (r: Option<PatchEntry>)
    ensures r.Some? <==> ParseHexOrDecimal(e.addressAttr.GetOr("0")).Some? && ParseHexOrDecimal(e.dataSizeAttr.GetOr("0")).Some?
    ensures r.Some? ==>
      && r.value.address == ParseHexOrDecimal(e.addressAttr.GetOr("0")).value
      && r.value.dataSize == ParseHexOrDecimal(e.dataSizeAttr.GetOr("0")).value
      && r.value.patchData == ToUpper(e.patchDataAttr.GetOr(""))
      && r.value.baseData == ToUpper(e.baseDataAttr.GetOr(""))
  {
    var address := ParseHexOrDecimal(e.addressAttr.GetOr("0"));
    var dataSize := ParseHexOrDecimal(e.dataSizeAttr.GetOr("0"));
    if address.None? || dataSize.None? then None
    else Some(PatchEntry(e.nameAttr.GetOr("Unknown"), address.value, dataSize.value,
      ToUpper(e.patchDataAttr.GetOr("")), ToUpper(e.baseDataAttr.GetOr(""))))
  }

  /** An entry whose attributes are absent reads as an empty entry at address 0. */
  lemma BareEntry()
    ensures EntryFromNode(EntryNode(None, None, None, None, None)) == Some(PatchEntry("Unknown", 0, 0, "", ""))
  {
    DecimalRoundTrip(0);
  }

  /** The entries that parse, in document order. */
  function PatchEntries(es: seq<EntryNode>): (r: seq<PatchEntry>)
    ensures |r| <= |es|
  {
    if es == [] then []
    else
      var rest := PatchEntries(es[..|es| - 1]);
      match EntryFromNode(es[|es| - 1])
      case None => rest
      case Some(x) => rest + [x]
  }

  /** Every kept entry comes from some element, and none is kept exactly when no element parses. */
  lemma {:induction false} PatchEntriesFacts(es: seq<EntryNode>)
    ensures forall x :: x in PatchEntries(es) ==> exists i :: 0 <= i < |es| && EntryFromNode(es[i]) == Some(x)
    ensures PatchEntries(es) == [] <==> forall i :: 0 <= i < |es| ==> EntryFromNode(es[i]).None?
  {
    if es != [] {
      var init := es[..|es| - 1];
      PatchEntriesFacts(init);
      assert forall i :: 0 <= i < |init| ==> init[i] == es[i];
    }
  }

  /** An `XDFPATCH` element: its own lookups and its `XDFPATCHENTRY` descendants. */
  datatype PatchNode = PatchNode(node: Node, entries: seq<EntryNode>)

  /** A patch as recorded: its parsed entries and their status in the image. */
  datatype Patch = Patch(title: string, category: string, entries: seq<PatchEntry>, status: Status)

  /**
   * `_extract_patches` for one element: kept exactly when at least one entry
   * parses, with the status the detector gives its entries.
   */
  function PatchFromNode(categories: map<int, string>, loaded: bool, sp: Space, image: seq<Byte>, p: PatchNode): Option<Patch> {
    var entries := PatchEntries(p.entries);
    if entries == [] then None
    else Some(Patch(GetTitle(p.node), GetCategoryName(categories, p.node), entries, PatchStatusOf(loaded, sp, image, entries)))
  }

  /** A patch is kept exactly when one of its entries parses, with those entries and their status. */
  lemma PatchFromNodeIff(categories: map<int, string>, loaded: bool, sp: Space, image: seq<Byte>, p: PatchNode)
    ensures var r := PatchFromNode(categories, loaded, sp, image, p);
      && (r.Some? <==> exists i :: 0 <= i < |p.entries| && EntryFromNode(p.entries[i]).Some?)
      && (r.Some? ==> r.value.entries == PatchEntries(p.entries) && r.value.status == PatchStatusOf(loaded, sp, image, r.value.entries))
  {
    PatchEntriesFacts(p.entries);
  }
}
