/**
 * The exporter object: the loaded image, the address space read from the
 * definition's header, the category names, and the four element lists the
 * extraction passes append to. Each pass walks the definition's elements
 * in document order, and each is proved to produce what the per-element
 * acceptance functions of `Descriptors` select.
 */
module Exporter {
  import opened Wrappers
  import opened Text
  import opened Bytes
  import opened AddressSpace
  import opened FieldDecoder
  import opened PatchStatus
  import opened Descriptors
  import opened TableData

  /** The `offset` and `subtract` attributes of the header's `BASEOFFSET` element. */
  datatype BaseOffsetNode = BaseOffsetNode(offset: Option<string>, subtract: Option<string>)

  /** The `XDFHEADER` element: the texts of `deftitle`, `title` and `name`, and its `BASEOFFSET`. */
  datatype HeaderNode = HeaderNode(
    defTitleText: Option<string>, titleText: Option<string>, nameText: Option<string>,
    baseOffset: Option<BaseOffsetNode>)

  /** A `CATEGORY` element: its `index` and `name` attributes. */
  datatype CategoryNode = CategoryNode(index: Option<string>, name: Option<string>)

  /** The parts of a definition the exporter reads, each list in document order. */
  datatype Definition = Definition(
    header: Option<HeaderNode>, categories: seq<CategoryNode>,
    constants: seq<Node>, flags: seq<Node>, tables: seq<TableNode>, patches: seq<PatchNode>)

  /** The header's title candidates, in the order they are tried. */
  function HeaderTitleCandidates(h: HeaderNode): seq<Option<string>> {
    [h.defTitleText, h.titleText, h.nameText]
  }

  /**
   * The definition name after reading a header: the stripped text of the
   * first title candidate with non-empty text, the current name when none has.
   */
  function DefinitionName(current: string, h: HeaderNode): (r: string)
    ensures (forall i :: 0 <= i < 3 ==> !Truthy(HeaderTitleCandidates(h)[i])) ==> r == current
    ensures forall i :: IsFirstTruthy(HeaderTitleCandidates(h), i) ==> r == Strip(HeaderTitleCandidates(h)[i].value)
  {
    var cs := HeaderTitleCandidates(h);
    if Truthy(h.defTitleText) then
      assert IsFirstTruthy(cs, 0);
      Strip(h.defTitleText.value)
    else if Truthy(h.titleText) then
      assert IsFirstTruthy(cs, 1);
      Strip(h.titleText.value)
    else if Truthy(h.nameText) then
      assert IsFirstTruthy(cs, 2);
      Strip(h.nameText.value)
    else
      current
  }

  /** The category element names index `idx`: its index is non-empty and parses to `idx`. */
  predicate Registers(c: CategoryNode, idx: int) {
    Truthy(c.index) && ParseHexOrDecimal(c.index.value) == Some(idx)
  }

  /** The category element has a non-empty index that does not parse (Python raises `ValueError`). */
  predicate Malformed(c: CategoryNode) {
    Truthy(c.index) && ParseHexOrDecimal(c.index.value).None?
  }

  /**
   * One category element: an element without an index is ignored, a
   * well-formed index is bound to the name (`'Unknown'` when absent), and a
   * malformed index stops the pass (`false`).
   */
  function RegisterOne(m: map<int, string>, c: CategoryNode): (map<int, string>, bool) {
    if !Truthy(c.index) then (m, true)
    else match ParseHexOrDecimal(c.index.value)
      case None => (m, false)
      case Some(idx) => (m[idx := c.name.GetOr("Unknown")], true)
  }

  /**
   * `_extract_categories` over the elements in order: the names registered
   * so far, and whether the pass got to the end without a malformed index.
   */
  function RegisterCategories(m: map<int, string>, cs: seq<CategoryNode>): (map<int, string>, bool) {
    if cs == [] then (m, true)
    else
      var prev := RegisterCategories(m, cs[..|cs| - 1]);
      if !prev.1 then prev else RegisterOne(prev.0, cs[|cs| - 1])
  }

  /** The pass completes exactly when no element has a malformed index. */
  lemma {:induction false} RegisterCompletesIff(m: map<int, string>, cs: seq<CategoryNode>)
    ensures RegisterCategories(m, cs).1 <==> forall i :: 0 <= i < |cs| ==> !Malformed(cs[i])
  {
    if cs != [] {
      var init := cs[..|cs| - 1];
      RegisterCompletesIff(m, init);
      assert forall i :: 0 <= i < |init| ==> init[i] == cs[i];
    }
  }

  /** Once a malformed index has stopped the pass, later elements change nothing. */
  lemma {:induction false} RegisterStopsAt(m: map<int, string>, cs: seq<CategoryNode>, i: int)
    requires 0 <= i <= |cs| && !RegisterCategories(m, cs[..i]).1
    ensures RegisterCategories(m, cs) == RegisterCategories(m, cs[..i])
    decreases |cs|
  {
    if i < |cs| {
      var init := cs[..|cs| - 1];
      assert init[..i] == cs[..i];
      RegisterStopsAt(m, init, i);
    } else {
      assert cs[..i] == cs;
    }
  }

  /** One well-formed element adds its own index and no other. */
  lemma RegisterOneKeys(m: map<int, string>, c: CategoryNode, idx: int)
    requires RegisterOne(m, c).1
    ensures idx in RegisterOne(m, c).0 <==> idx in m || Registers(c, idx)
  {
  }

  /** After a complete pass an index is registered exactly when it was before or some element names it. */
  lemma {:induction false} RegisterKeys(m: map<int, string>, cs: seq<CategoryNode>, idx: int)
    requires RegisterCategories(m, cs).1
    ensures idx in RegisterCategories(m, cs).0 <==> idx in m || exists i :: 0 <= i < |cs| && Registers(cs[i], idx)
  {
    if cs != [] {
      var init := cs[..|cs| - 1];
      var prev := RegisterCategories(m, init);
      assert prev.1 && RegisterCategories(m, cs) == RegisterOne(prev.0, cs[|cs| - 1]);
      RegisterKeys(m, init, idx);
      RegisterOneKeys(prev.0, cs[|cs| - 1], idx);
      if exists i :: 0 <= i < |cs| && Registers(cs[i], idx) {
        var i :| 0 <= i < |cs| && Registers(cs[i], idx);
        if i < |init| {
          assert Registers(init[i], idx);
        }
      }
      if exists i :: 0 <= i < |init| && Registers(init[i], idx) {
        var i :| 0 <= i < |init| && Registers(init[i], idx);
        assert Registers(cs[i], idx);
      }
    }
  }

  /** After a complete pass an index names the category of the last element that registers it. */
  lemma {:induction false} RegisterLast(m: map<int, string>, cs: seq<CategoryNode>, idx: int, i: int)
    requires RegisterCategories(m, cs).1
    requires 0 <= i < |cs| && Registers(cs[i], idx)
    requires forall j :: i < j < |cs| ==> !Registers(cs[j], idx)
    ensures idx in RegisterCategories(m, cs).0
    ensures RegisterCategories(m, cs).0[idx] == cs[i].name.GetOr("Unknown")
  {
    var init := cs[..|cs| - 1];
    if i < |init| {
      assert !Registers(cs[|cs| - 1], idx);
      assert forall j :: i < j < |init| ==> init[j] == cs[j];
      RegisterLast(m, init, idx, i);
    }
  }

  /** A category registered before the pass and named by no element keeps its name. */
  lemma {:induction false} RegisterKeepsOthers(m: map<int, string>, cs: seq<CategoryNode>, idx: int)
    requires idx in m && forall i :: 0 <= i < |cs| ==> !Registers(cs[i], idx)
    ensures idx in RegisterCategories(m, cs).0 && RegisterCategories(m, cs).0[idx] == m[idx]
  {
    if cs != [] {
      var init := cs[..|cs| - 1];
      assert forall i :: 0 <= i < |init| ==> init[i] == cs[i];
      RegisterKeepsOthers(m, init, idx);
    }
  }

  /** The values `f` accepts from `s`, in order: what an extraction pass appends. */
  function Collect<A, B>(f: A -> Option<B>, s: seq<A>): (r: seq<B>)
    ensures |r| <= |s|
  {
    if s == [] then []
    else
      var rest := Collect(f, s[..|s| - 1]);
      match f(s[|s| - 1])
      case None => rest
      case Some(y) => rest + [y]
  }

  /** One more element: its value, if accepted, is appended. */
  lemma CollectSnoc<A, B>(f: A -> Option<B>, s: seq<A>, i: int)
    requires 0 <= i < |s|
    ensures Collect(f, s[..i + 1]) == Collect(f, s[..i]) + (if f(s[i]).Some? then [f(s[i]).value] else [])
  {
    assert s[..i + 1][..i] == s[..i];
  }

  /** `CollectSnoc` with the element's value already known to be `y`. */
  lemma CollectStep<A, B>(f: A -> Option<B>, s: seq<A>, i: int, y: Option<B>)
    requires 0 <= i < |s| && f(s[i]) == y
    ensures Collect(f, s[..i + 1]) == Collect(f, s[..i]) + (if y.Some? then [y.value] else [])
  {
    CollectSnoc(f, s, i);
  }

  /** A value is collected exactly when `f` accepts some element as that value. */
  lemma {:induction false} CollectIff<A, B>(f: A -> Option<B>, s: seq<A>, y: B)
    ensures y in Collect(f, s) <==> exists i :: 0 <= i < |s| && f(s[i]) == Some(y)
  {
    if s != [] {
      var init := s[..|s| - 1];
      CollectIff(f, init, y);
      if exists i :: 0 <= i < |s| && f(s[i]) == Some(y) {
        var i :| 0 <= i < |s| && f(s[i]) == Some(y);
        if i < |init| {
          assert f(init[i]) == Some(y);
        }
      }
      if exists i :: 0 <= i < |init| && f(init[i]) == Some(y) {
        var i :| 0 <= i < |init| && f(init[i]) == Some(y);
        assert f(s[i]) == Some(y);
      }
    }
  }

  /** When `f` accepts every element, nothing is dropped and the order is kept. */
  lemma {:induction false} CollectAll<A, B>(f: A -> Option<B>, s: seq<A>)
    requires forall i :: 0 <= i < |s| ==> f(s[i]).Some?
    ensures |Collect(f, s)| == |s|
    ensures forall i :: 0 <= i < |s| ==> Collect(f, s)[i] == f(s[i]).value
  {
    if s != [] {
      var init := s[..|s| - 1];
      assert forall i :: 0 <= i < |init| ==> init[i] == s[i];
      CollectAll(f, init);
    }
  }

  function ScalarReader(categories: map<int, string>): Node -> Option<Scalar> {
    n => ScalarFromNode(categories, n)
  }

  function FlagReader(categories: map<int, string>): Node -> Option<Flag> {
    n => FlagFromNode(categories, n)
  }

  function TableReader(categories: map<int, string>): TableNode -> Option<Table> {
    t => TableFromNode(categories, t)
  }

  function PatchReader(categories: map<int, string>, loaded: bool, sp: Space, image: seq<Byte>): PatchNode -> Option<Patch> {
    p => PatchFromNode(categories, loaded, sp, image, p)
  }

  /** A row holding each cell's value in order is the matrix row. */
  lemma RowComplete(sp: Space, image: seq<Byte>, z: Axis, base: int, cols: int, eval: Evaluator, r: int, row: seq<real>)
    requires |row| == RangeLength(cols)
    requires forall j :: 0 <= j < |row| ==> row[j] == CellValue(sp, image, z, base, cols, eval, r, j)
    ensures row == MatrixRow(sp, image, z, base, cols, eval, r)
  {
  }

  /** `UniversalXDFExporter`'s state and the passes that fill it. */
  class XdfExporter {
    /** Whether an image has been read (`bin_data is not None`). */
    var loaded: bool
    /** The image bytes; `bin_size` is their number. */
    var image: seq<Byte>
    var definitionName: string
    var baseOffset: int
    var baseSubtract: int
    var categories: map<int, string>
    var constants: seq<Scalar>
    var flags: seq<Flag>
    var tables: seq<Table>
    var patches: seq<Patch>

    /** The address space the header set up. */
    function CurrentSpace(): Space
      reads this`baseOffset, this`baseSubtract
    {
      Space(baseOffset, baseSubtract)
    }

    /** Without a loaded image there are no image bytes (`bin_data` is `None`, `bin_size` 0). */
    predicate Valid()
      reads this`loaded, this`image
    {
      !loaded ==> image == []
    }

    /** A new exporter: no image, no base offset, nothing extracted. */
    constructor ()
      ensures !loaded && image == [] && definitionName == "Unknown"
      ensures baseOffset == 0 && baseSubtract == 0 && categories == map[]
      ensures constants == [] && flags == [] && tables == [] && patches == []
      ensures Valid()
    {
      loaded := false;
      image := [];
      definitionName := "Unknown";
      baseOffset := 0;
      baseSubtract := 0;
      categories := map[];
      constants := [];
      flags := [];
      tables := [];
      patches := [];
    }

    /**
     * `validate_bin_file`'s effect on the state: the bytes of the file, or
     * `None` when it is missing or unreadable, in which case nothing changes.
     */
    method LoadImage(data: Option<seq<Byte>>) returns (ok: bool)
      modifies this`loaded, this`image
      ensures ok == data.Some?
      ensures data.Some? ==> loaded && image == data.value
      ensures data.None? ==> loaded == old(loaded) && image == old(image)
      ensures data.Some? || old(Valid()) ==> Valid()
    {
      if data.None? {
        return false;
      }
      image := data.value;
      loaded := true;
      ok := true;
    }

    /**
     * `_extract_header`: the definition name from the first title tag with
     * text, and the base offset and subtract flag from `BASEOFFSET` when the
     * header has one (each falling back to 0 when malformed).
     */
    method ReadHeader(header: Option<HeaderNode>)
      modifies this`definitionName, this`baseOffset, this`baseSubtract
      ensures header.None? ==>
        definitionName == old(definitionName) && baseOffset == old(baseOffset) && baseSubtract == old(baseSubtract)
      ensures header.Some? ==> definitionName == DefinitionName(old(definitionName), header.value)
      ensures header.Some? && header.value.baseOffset.Some? ==>
        CurrentSpace() == HeaderSpace(header.value.baseOffset.value.offset, header.value.baseOffset.value.subtract)
      ensures header.Some? && header.value.baseOffset.None? ==>
        baseOffset == old(baseOffset) && baseSubtract == old(baseSubtract)
    {
      if header.None? {
        return;
      }
      var h := header.value;
      var cs := HeaderTitleCandidates(h);
      var k := 0;
      while k < 3 && !Truthy(cs[k])
        invariant 0 <= k <= 3
        invariant forall j :: 0 <= j < k ==> !Truthy(cs[j])
      {
        k := k + 1;
      }
      if k < 3 {
        assert IsFirstTruthy(cs, k);
        definitionName := Strip(cs[k].value);
      }
      if h.baseOffset.Some? {
        var b := h.baseOffset.value;
        baseOffset := ParseHexOrDecimal(b.offset.GetOr("0")).GetOr(0);
        baseSubtract := ParseDecimal(b.subtract.GetOr("0")).GetOr(0);
      }
    }

    /**
     * `_extract_categories`: registers the elements in order; `false` when a
     * malformed index raised, with the names registered before it kept.
     */
    method ExtractCategories(cs: seq<CategoryNode>) returns (ok: bool)
      modifies this`categories
      ensures (categories, ok) == RegisterCategories(old(categories), cs)
    {
      var i := 0;
      while i < |cs|
        invariant 0 <= i <= |cs|
        invariant RegisterCategories(old(categories), cs[..i]) == (categories, true)
      {
        assert cs[..i + 1][..i] == cs[..i];
        var c := cs[i];
        if Truthy(c.index) {
          var idx := ParseHexOrDecimal(c.index.value);
          if idx.None? {
            RegisterStopsAt(old(categories), cs, i + 1);
            return false;
          }
          categories := categories[idx.value := c.name.GetOr("Unknown")];
        }
        i := i + 1;
      }
      assert cs[..i] == cs;
      ok := true;
    }

    /** `_parse_embedded_data`, filling the record from its defaults attribute by attribute. */
    method ParseEmbeddedData(n: Node) returns (r: FieldSpec)
      ensures r == EmbeddedFieldSpec(n)
    {
      r := DefaultFieldSpec;
      if n.embedded.None? {
        return;
      }
      var e := n.embedded.value;
      if Truthy(e.mmedAddress) {
        r := r.(address := ParseHexOrDecimal(e.mmedAddress.value));
      }
      if Truthy(e.mmedElementSizeBits) {
        var size := ParseDecimal(e.mmedElementSizeBits.value);
        if size.Some? {
          r := r.(sizeBits := size.value);
        }
      }
      var flags := ParseHexOrDecimal(e.mmedTypeFlags.GetOr("0x00"));
      if flags.Some? {
        r := r.(lsbFirst := Bit(flags.value, 0), signed := Bit(flags.value, 1));
      }
      if Truthy(e.mmedRowCount) {
        var rows := ParseDecimal(e.mmedRowCount.value);
        if rows.Some? {
          r := r.(rowCount := rows.value);
        }
      }
      if Truthy(e.mmedColCount) {
        var cols := ParseDecimal(e.mmedColCount.value);
        if cols.Some? {
          r := r.(colCount := cols.value);
        }
      }
    }

    /** `_extract_constants`: appends every constant whose embedded descriptor has an address. */
    method ExtractConstants(ns: seq<Node>)
      modifies this`constants
      ensures constants == old(constants) + Collect(ScalarReader(categories), ns)
    {
      for i := 0 to |ns|
        invariant constants == old(constants) + Collect(ScalarReader(categories), ns[..i])
      {
        CollectSnoc(ScalarReader(categories), ns, i);
        var n := ns[i];
        var embedded := ParseEmbeddedData(n);
        if embedded.address.None? {
          continue;
        }
        var title := GetTitle(n);
        var category := GetCategoryName(categories, n);
        var unit := TextOr(n.unitsText, "");
        var equation := Equation(n);
        var decimalPl := DecimalPl(n, 2);
        constants := constants + [Scalar(title, embedded.address.value, embedded.sizeBits, embedded.signed,
          embedded.lsbFirst, unit, equation, category, decimalPl)];
      }
      assert ns[..|ns|] == ns;
    }

    /** `_extract_flags`: appends every flag the address chain finds an address for. */
    method ExtractFlags(ns: seq<Node>)
      modifies this`flags
      ensures flags == old(flags) + Collect(FlagReader(categories), ns)
    {
      for i := 0 to |ns|
        invariant flags == old(flags) + Collect(FlagReader(categories), ns[..i])
      {
        CollectSnoc(FlagReader(categories), ns, i);
        var n := ns[i];
        var address := GetAddress(n);
        if address.None? {
          continue;
        }
        var title := GetTitle(n);
        var category := GetCategoryName(categories, n);
        var mask := DefaultMask;
        if Truthy(n.maskText) {
          var parsed := ParseHexOrDecimal(Strip(n.maskText.value));
          if parsed.Some? {
            mask := parsed.value;
          }
        }
        flags := flags + [Flag(title, address.value, mask, category)];
      }
      assert ns[..|ns|] == ns;
    }

    /** One `XDFAXIS` of `_extract_tables`, its count from `indexcount` or, on the z axis, from the shape. */
    method ParseAxis(a: Node, tableDecimalPl: int) returns (axis: Axis)
      ensures axis == AxisFromNode(a, tableDecimalPl)
    {
      var axisId := AxisId(a);
      var embedded := ParseEmbeddedData(a);
      var count := 1;
      if Truthy(a.indexCountText) {
        var parsed := ParseDecimal(Strip(a.indexCountText.value));
        if parsed.Some? {
          count := parsed.value;
        }
      }
      if axisId == "z" && embedded.rowCount > 1 {
        count := embedded.rowCount * embedded.colCount;
      }
      axis := Axis(embedded.address, count, TextOr(a.unitsText, ""), Equation(a),
        embedded.sizeBits, embedded.signed, embedded.lsbFirst, embedded.rowCount, embedded.colCount,
        DecimalPl(a, tableDecimalPl));
    }

    /** The axes dictionary of `_extract_tables`, filled axis by axis in document order. */
    method ReadAxes(axisNodes: seq<Node>, tableDecimalPl: int) returns (axes: map<string, Axis>)
      ensures axes == AxesMap(axisNodes, tableDecimalPl)
    {
      axes := map[];
      for j := 0 to |axisNodes|
        invariant axes == AxesMap(axisNodes[..j], tableDecimalPl)
      {
        assert axisNodes[..j + 1][..j] == axisNodes[..j];
        var a := axisNodes[j];
        var axis := ParseAxis(a, tableDecimalPl);
        axes := axes[AxisId(a) := axis];
      }
      assert axisNodes[..|axisNodes|] == axisNodes;
    }

    /**
     * `_extract_tables`: builds each table's axes dictionary axis by axis
     * and appends the tables whose z axis has an address.
     */
    method ExtractTables(ts: seq<TableNode>)
      modifies this`tables
      ensures tables == old(tables) + Collect(TableReader(categories), ts)
    {
      for i := 0 to |ts|
        invariant tables == old(tables) + Collect(TableReader(categories), ts[..i])
      {
        CollectSnoc(TableReader(categories), ts, i);
        var t := ts[i];
        var title := GetTitle(t.node);
        var category := GetCategoryName(categories, t.node);
        var decimalPl := DecimalPl(t.node, 2);
        var axes := ReadAxes(t.axes, decimalPl);
        if "z" in axes && axes["z"].address.Some? {
          tables := tables + [Table(title, category, axes, decimalPl)];
        }
      }
      assert ts[..|ts|] == ts;
    }

    /**
     * `_check_patch_status`: counts the entries matching their patch and
     * their base pattern, then classifies the counts.
     */
    method CheckPatchStatus(entries: seq<PatchEntry>) returns (status: Status)
      ensures status == PatchStatusOf(loaded, CurrentSpace(), image, entries)
    {
      if entries == [] || !loaded {
        return Unknown;
      }
      var sp := CurrentSpace();
      var img := image;
      ghost var os := Outcomes(sp, img, entries);
      var applied := 0;
      var base := 0;
      var total := |entries|;
      for i := 0 to |entries|
        invariant applied == Occurrences(os[..i], MatchesPatch)
        invariant base == Occurrences(os[..i], MatchesBase)
      {
        assert os[..i + 1][..i] == os[..i];
        assert os[i] == EntryOutcome(sp, img, entries[i]);
        var e := entries[i];
        var off := Resolve(sp, e.address);
        if off < 0 || off + e.dataSize > |img| {
          continue;
        }
        var actual := HexUpper(PySlice(img, off, off + e.dataSize));
        if e.patchData != "" && actual == e.patchData {
          applied := applied + 1;
        } else if e.baseData != "" && actual == e.baseData {
          base := base + 1;
        }
      }
      assert os[..|entries|] == os;
      if applied == total {
        status := Applied;
      } else if base == total {
        status := NotApplied;
      } else if applied > 0 && base > 0 {
        status := Partial;
      } else if applied > 0 {
        status := Applied;
      } else if base > 0 {
        status := NotApplied;
      } else {
        status := Unknown;
      }
    }

    /**
     * `_extract_patches`: collects each patch's entries that parse and
     * appends the patches with at least one, with their status.
     */
    method ExtractPatches(ps: seq<PatchNode>)
      modifies this`patches
      ensures patches == old(patches) + Collect(PatchReader(categories, loaded, CurrentSpace(), image), ps)
    {
      var sp := CurrentSpace();
      var reader := PatchReader(categories, loaded, sp, image);
      var found: seq<Patch> := [];
      for i := 0 to |ps|
        invariant patches == old(patches)
        invariant found == Collect(reader, ps[..i])
      {
        var patch := ParsePatch(ps[i]);
        CollectStep(reader, ps, i, patch);
        if patch.Some? {
          found := found + [patch.value];
        }
      }
      assert ps[..|ps|] == ps;
      patches := patches + found;
      assert CurrentSpace() == sp;
    }

    /** One `XDFPATCH` of `_extract_patches`: its entries that parse, and their status when there are any. */
    method ParsePatch(p: PatchNode) returns (patch: Option<Patch>)
      ensures patch == PatchReader(categories, loaded, CurrentSpace(), image)(p)
    {
      var title := GetTitle(p.node);
      var category := GetCategoryName(categories, p.node);
      var entries := ReadPatchEntries(p.entries);
      if entries == [] {
        return None;
      }
      var status := CheckPatchStatus(entries);
      patch := Some(Patch(title, category, entries, status));
    }

    /** The entry loop of `_extract_patches`: an entry whose address or size does not parse is dropped. */
    method ReadPatchEntries(es: seq<EntryNode>) returns (entries: seq<PatchEntry>)
      ensures entries == PatchEntries(es)
    {
      entries := [];
      for j := 0 to |es|
        invariant entries == PatchEntries(es[..j])
      {
        assert es[..j + 1][..j] == es[..j];
        var e := es[j];
        var address := ParseHexOrDecimal(e.addressAttr.GetOr("0"));
        var dataSize := ParseHexOrDecimal(e.dataSizeAttr.GetOr("0"));
        if address.None? || dataSize.None? {
          continue;
        }
        entries := entries + [PatchEntry(e.nameAttr.GetOr("Unknown"), address.value, dataSize.value,
          ToUpper(e.patchDataAttr.GetOr("")), ToUpper(e.baseDataAttr.GetOr("")))];
      }
      assert es[..|es|] == es;
    }

    /**
     * `parse_xdf` after the document is parsed: the header, the categories,
     * then the four element passes. A malformed category index stops it
     * (`false`) before any element is extracted.
     */
    method ParseDefinition(d: Definition) returns (ok: bool)
      modifies this`definitionName, this`baseOffset, this`baseSubtract, this`categories
      modifies this`constants, this`flags, this`tables, this`patches
      ensures d.header.Some? ==> definitionName == DefinitionName(old(definitionName), d.header.value)
      ensures d.header.Some? && d.header.value.baseOffset.Some? ==>
        CurrentSpace() == HeaderSpace(d.header.value.baseOffset.value.offset, d.header.value.baseOffset.value.subtract)
      ensures (d.header.None? || d.header.value.baseOffset.None?) ==> CurrentSpace() == old(CurrentSpace())
      ensures (categories, ok) == RegisterCategories(old(categories), d.categories)
      ensures !ok ==> constants == old(constants) && flags == old(flags) && tables == old(tables) && patches == old(patches)
      ensures ok ==> constants == old(constants) + Collect(ScalarReader(categories), d.constants)
      ensures ok ==> flags == old(flags) + Collect(FlagReader(categories), d.flags)
      ensures ok ==> tables == old(tables) + Collect(TableReader(categories), d.tables)
      ensures ok ==> patches == old(patches) + Collect(PatchReader(categories, loaded, CurrentSpace(), image), d.patches)
    {
      ReadHeader(d.header);
      ok := ExtractCategories(d.categories);
      if ok {
        ExtractElements(d);
      }
    }

    /** The four element passes of `parse_xdf`, in their order. */
    method ExtractElements(d: Definition)
      modifies this`constants, this`flags, this`tables, this`patches
      ensures constants == old(constants) + Collect(ScalarReader(categories), d.constants)
      ensures flags == old(flags) + Collect(FlagReader(categories), d.flags)
      ensures tables == old(tables) + Collect(TableReader(categories), d.tables)
      ensures patches == old(patches) + Collect(PatchReader(categories, loaded, CurrentSpace(), image), d.patches)
    {
      ExtractConstants(d.constants);
      ExtractFlags(d.flags);
      ExtractTables(d.tables);
      ExtractPatches(d.patches);
    }

    /**
     * `_read_table_data`: the matrix of a table read cell by cell in
     * row-major order, abandoned at the first cell past the end of the image.
     */
    method ReadTableData(t: Table, eval: Evaluator) returns (data: Option<seq<seq<real>>>)
      ensures data == TableMatrix(CurrentSpace(), image, t, eval)
    {
      var z := AxisOf(t, "z");
      var y := AxisOf(t, "y");
      var x := AxisOf(t, "x");
      var rows := z.rowCount;
      var cols := z.colCount;
      if rows <= 1 && cols <= 1 {
        rows := Max(y.count, 1);
        cols := Max(x.count, 1);
      }
      if rows <= 1 && cols <= 1 {
        return None;
      }
      if z.address.None? {
        return None;
      }
      var base := z.address.value;
      var sp := CurrentSpace();
      var img := image;
      assert (rows, cols) == Dimensions(t);
      var m: seq<seq<real>> := [];
      var r := 0;
      while r < rows
        invariant 0 <= r <= RangeLength(rows)
        invariant |m| == r
        invariant forall i :: 0 <= i < r ==> m[i] == MatrixRow(sp, img, z, base, cols, eval, i)
        invariant forall i, j :: 0 <= i < r && 0 <= j < cols ==> CellInBounds(sp, img, z, base, cols, i, j)
      {
        var row := ReadRow(sp, z, base, cols, eval, r);
        if row.None? {
          var j :| 0 <= j < cols && !CellInBounds(sp, img, z, base, cols, r, j);
          assert SomeCellOutOfBounds(sp, img, z, base, rows, cols);
          return None;
        }
        m := m + [row.value];
        r := r + 1;
      }
      assert !SomeCellOutOfBounds(sp, img, z, base, rows, cols);
      assert |m| == RangeLength(rows);
      assert m == seq(RangeLength(rows), i requires 0 <= i < RangeLength(rows) => MatrixRow(sp, img, z, base, cols, eval, i));
      data := Some(m);
    }

    /**
     * One row of `_read_table_data`: the cells in column order, or `None` at
     * the first cell past the end of the image.
     */
    method ReadRow(sp: Space, z: Axis, base: int, cols: int, eval: Evaluator, r: int) returns (row: Option<seq<real>>)
      ensures row.Some? <==> forall j :: 0 <= j < cols ==> CellInBounds(sp, image, z, base, cols, r, j)
      ensures row.Some? ==> row.value == MatrixRow(sp, image, z, base, cols, eval, r)
    {
      var sizeBytes := SizeBytes(z);
      var cells: seq<real> := [];
      var c := 0;
      while c < cols
        invariant 0 <= c <= RangeLength(cols)
        invariant |cells| == c
        invariant forall j :: 0 <= j < c ==> cells[j] == CellValue(sp, image, z, base, cols, eval, r, j)
        invariant forall j :: 0 <= j < c ==> CellInBounds(sp, image, z, base, cols, r, j)
      {
        var address := CellAddress(base, cols, sizeBytes, r, c);
        var fileOffset := Resolve(sp, address);
        if fileOffset + sizeBytes > |image| {
          assert !CellInBounds(sp, image, z, base, cols, r, c);
          return None;
        }
        var value := ReadCell(sp, z, base, cols, eval, r, c);
        cells := cells + [value];
        c := c + 1;
      }
      RowComplete(sp, image, z, base, cols, eval, r, cells);
      row := Some(cells);
    }

    /**
     * One cell of `_read_table_data`: 0 when the read fails, else the raw
     * value, through the z axis's equation when it has one and that succeeds.
     */
    method ReadCell(sp: Space, z: Axis, base: int, cols: int, eval: Evaluator, r: int, c: int) returns (value: real)
      ensures value == CellValue(sp, image, z, base, cols, eval, r, c)
    {
      var address := CellAddress(base, cols, SizeBytes(z), r, c);
      var raw := ReadValue(sp, image, address, z.sizeBits, z.signed, z.lsbFirst);
      if raw.None? {
        value := 0.0;
      } else if HasEquation(z) {
        var evaluated := EvaluateMath(eval, z.equation.value, raw.value);
        value := if evaluated.Some? then evaluated.value else raw.value as real;
      } else {
        value := raw.value as real;
      }
    }
  }
}
