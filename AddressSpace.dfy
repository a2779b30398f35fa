/**
 * The address resolver: the BASEOFFSET transform from definition-space
 * (ECU memory) addresses to offsets in the firmware image.
 */
module AddressSpace {
  import opened Wrappers
  import opened Text

  /** The header's BASEOFFSET: `base_offset` and `base_subtract` (0 or 1 in practice). */
  datatype Space = Space(baseOffset: int, subtract: int)

  /** The session's starting configuration: no base offset, `subtract == 0`. */
  const NoOffset := Space(0, 0)

  /**
   * The configuration read from `<BASEOFFSET offset=".." subtract=".."/>`: the
   * offset through the hex-or-decimal idiom and the subtract flag as a decimal,
   * each `0` when absent or malformed.
   */
  function HeaderSpace(offsetAttr: Option<string>, subtractAttr: Option<string>): (sp: Space)
    ensures offsetAttr.None? ==> sp.baseOffset == 0
    ensures subtractAttr.None? ==> sp.subtract == 0
    ensures ParseHexOrDecimal(offsetAttr.GetOr("0")).Some? ==> sp.baseOffset == ParseHexOrDecimal(offsetAttr.GetOr("0")).value
    ensures ParseHexOrDecimal(offsetAttr.GetOr("0")).None? ==> sp.baseOffset == 0
    ensures ParseDecimal(subtractAttr.GetOr("0")).Some? ==> sp.subtract == ParseDecimal(subtractAttr.GetOr("0")).value
    ensures ParseDecimal(subtractAttr.GetOr("0")).None? ==> sp.subtract == 0
  {
    DecimalRoundTrip(0);
    Space(ParseHexOrDecimal(offsetAttr.GetOr("0")).GetOr(0), ParseDecimal(subtractAttr.GetOr("0")).GetOr(0))
  }

  /** A header written with `0x` + hex for the offset and decimal for the flag is read back exactly. */
  lemma HeaderSpaceRoundTrip(baseOffset: nat, subtract: int)
    ensures HeaderSpace(Some("0x" + HexText(baseOffset)), Some(DecimalText(subtract))) == Space(baseOffset, subtract)
  {
    HexRoundTrip(baseOffset);
    DecimalRoundTrip(subtract);
  }

  /** The translated address before the sanity check: `subtract == 1` subtracts, any other value adds. */
  function Translate(sp: Space, addr: int): int {
    if sp.subtract == 1 then addr - sp.baseOffset else addr + sp.baseOffset
  }

  /**
   * `_xdf_addr_to_file_offset`: the identity without a base offset, otherwise
   * the translated address, except that a negative translation falls back to
   * the raw address.
   */
  function Resolve(sp: Space, addr: int): (off: int)
    ensures sp.baseOffset == 0 ==> off == addr
    ensures Translate(sp, addr) >= 0 ==> off == Translate(sp, addr)
    ensures Translate(sp, addr) < 0 ==> off == addr
    ensures addr >= 0 ==> off >= 0
  {
    if sp.baseOffset == 0 then addr
    else
      var translated := Translate(sp, addr);
      if translated < 0 then addr else translated
  }

  /** The two worked examples of the resolver's documentation. */
  lemma ResolveExamples()
    ensures Resolve(Space(0x48000, 0), 0x0000) == 0x48000
    ensures Resolve(Space(0x8000, 1), 0x8000) == 0x0000
  {
  }

  /** The logical address that lands on a given file offset. */
  function Unresolve(sp: Space, off: int): int {
    if sp.subtract == 1 then off + sp.baseOffset else off - sp.baseOffset
  }

  /** Every file offset is reached: resolving `Unresolve(off)` gives `off` back. */
  lemma ResolveReachesEveryOffset(sp: Space, off: nat)
    ensures Resolve(sp, Unresolve(sp, off)) == off
  {
  }

  /** Away from the fallback, resolution is a translation: distinct addresses keep their distance. */
  lemma ResolveIsTranslation(sp: Space, a: int, b: int)
    requires Translate(sp, a) >= 0 && Translate(sp, b) >= 0
    ensures Resolve(sp, b) - Resolve(sp, a) == b - a
  {
  }
}
