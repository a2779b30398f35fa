/**
 * Patch detection: a patch is a list of entries, each naming a span of the
 * image and the bytes the span holds with the patch applied (`patchdata`)
 * and without it (`basedata`), both as upper-case hexadecimal text. The
 * patch's status follows from how many entries match either pattern.
 */
module PatchStatus {
  import opened Text
  import opened Bytes
  import opened AddressSpace

  /** One `XDFPATCHENTRY`, with its patterns already upper-cased. */
  datatype PatchEntry = PatchEntry(name: string, address: int, dataSize: int, patchData: string, baseData: string)

  /** `'applied'`, `'not_applied'`, `'partial'` and `'unknown'`. */
  datatype Status = Applied | NotApplied | Partial | Unknown

  /** What the status check makes of one entry. */
  datatype Outcome = MatchesPatch | MatchesBase | NoMatch | Skipped

  /** The entry's span passes the offset check: it starts in the image and does not end past it. */
  predicate InImage(sp: Space, image: seq<Byte>, e: PatchEntry) {
    var off := Resolve(sp, e.address);
    0 <= off && off + e.dataSize <= |image|
  }

  /**
   * The hexadecimal text of the bytes `image[off:off + datasize]`, taken
   * with Python's slice rules (a negative size counts the end from the
   * back of the image).
   */
  function ActualHex(sp: Space, image: seq<Byte>, e: PatchEntry): string {
    var off := Resolve(sp, e.address);
    HexUpper(PySlice(image, off, off + e.dataSize))
  }

  /**
   * An entry outside the image is skipped; otherwise it matches the patch
   * pattern if that is non-empty and equal to the image's bytes, else the
   * base pattern under the same condition, else nothing.
   */
  function EntryOutcome(sp: Space, image: seq<Byte>, e: PatchEntry): (o: Outcome)
    ensures o == Skipped <==> !InImage(sp, image, e)
    ensures o == MatchesPatch ==> e.patchData != "" && ActualHex(sp, image, e) == e.patchData
    ensures o == MatchesBase ==> e.baseData != "" && ActualHex(sp, image, e) == e.baseData
  {
    if !InImage(sp, image, e) then Skipped
    else
      var actual := ActualHex(sp, image, e);
      if e.patchData != "" && actual == e.patchData then MatchesPatch
      else if e.baseData != "" && actual == e.baseData then MatchesBase
      else NoMatch
  }

  /** What the status check makes of each entry, in order. */
  function Outcomes(sp: Space, image: seq<Byte>, entries: seq<PatchEntry>): seq<Outcome> {
    seq(|entries|, i requires 0 <= i < |entries| => EntryOutcome(sp, image, entries[i]))
  }

  /** How many times `o` occurs in `os`. */
  function Occurrences(os: seq<Outcome>, o: Outcome): (c: nat)
    ensures c <= |os|
  {
    if os == [] then 0
    else Occurrences(os[..|os| - 1], o) + (if os[|os| - 1] == o then 1 else 0)
  }

  /** How many of the entries have the given outcome. */
  function Count(sp: Space, image: seq<Byte>, entries: seq<PatchEntry>, o: Outcome): (c: nat)
    ensures c <= |entries|
  {
    Occurrences(Outcomes(sp, image, entries), o)
  }

  /** The outcomes of a prefix are the prefix of the outcomes. */
  lemma OutcomesPrefix(sp: Space, image: seq<Byte>, entries: seq<PatchEntry>, i: int)
    requires 0 <= i <= |entries|
    ensures Outcomes(sp, image, entries[..i]) == Outcomes(sp, image, entries)[..i]
  {
  }

  /** Each outcome is counted under exactly one of the four counters. */
  lemma {:induction false} OccurrencesPartition(os: seq<Outcome>)
    ensures Occurrences(os, MatchesPatch) + Occurrences(os, MatchesBase)
      + Occurrences(os, NoMatch) + Occurrences(os, Skipped) == |os|
  {
    if os != [] {
      OccurrencesPartition(os[..|os| - 1]);
    }
  }

  /** A counter is positive exactly when the outcome occurs. */
  lemma {:induction false} OccurrencesPositive(os: seq<Outcome>, o: Outcome)
    ensures Occurrences(os, o) > 0 <==> exists i :: 0 <= i < |os| && os[i] == o
  {
    if os != [] {
      var init := os[..|os| - 1];
      OccurrencesPositive(init, o);
      if exists i :: 0 <= i < |os| && os[i] == o {
        var i :| 0 <= i < |os| && os[i] == o;
        if i < |init| {
          assert init[i] == os[i];
        }
      }
      if Occurrences(init, o) > 0 {
        var i :| 0 <= i < |init| && init[i] == o;
        assert os[i] == init[i];
      }
    }
  }

  /** The decision ladder over the two counters and the number of entries. */
  function Classify(applied: nat, base: nat, total: nat): Status {
    if applied == total then Applied
    else if base == total then NotApplied
    else if applied > 0 && base > 0 then Partial
    else if applied > 0 then Applied
    else if base > 0 then NotApplied
    else Unknown
  }

  /** `_check_patch_status`: unknown without entries or without a loaded image, else the ladder. */
  function PatchStatusOf(loaded: bool, sp: Space, image: seq<Byte>, entries: seq<PatchEntry>): Status {
    if entries == [] || !loaded then Unknown
    else Classify(Count(sp, image, entries, MatchesPatch), Count(sp, image, entries, MatchesBase), |entries|)
  }

  /** Every entry has exactly one outcome, so the four counts add up to the number of entries. */
  lemma CountPartition(sp: Space, image: seq<Byte>, entries: seq<PatchEntry>)
    ensures Count(sp, image, entries, MatchesPatch) + Count(sp, image, entries, MatchesBase)
      + Count(sp, image, entries, NoMatch) + Count(sp, image, entries, Skipped) == |entries|
  {
    OccurrencesPartition(Outcomes(sp, image, entries));
  }

  /** A count is positive exactly when some entry has that outcome. */
  lemma CountPositive(sp: Space, image: seq<Byte>, entries: seq<PatchEntry>, o: Outcome)
    ensures Count(sp, image, entries, o) > 0 <==> exists i :: 0 <= i < |entries| && EntryOutcome(sp, image, entries[i]) == o
  {
    var os := Outcomes(sp, image, entries);
    OccurrencesPositive(os, o);
    if exists i :: 0 <= i < |entries| && EntryOutcome(sp, image, entries[i]) == o {
      var i :| 0 <= i < |entries| && EntryOutcome(sp, image, entries[i]) == o;
      assert os[i] == o;
    }
    if exists i :: 0 <= i < |os| && os[i] == o {
      var i :| 0 <= i < |os| && os[i] == o;
      assert EntryOutcome(sp, image, entries[i]) == o;
    }
  }

  /**
   * Since the counters never exceed the number of entries together, the first
   * two rungs of the ladder are subsumed by the later ones: the status only
   * depends on which counters are positive.
   */
  lemma ClassifyIff(applied: nat, base: nat, total: nat)
    requires total > 0 && applied + base <= total
    ensures Classify(applied, base, total) == Applied <==> applied > 0 && base == 0
    ensures Classify(applied, base, total) == NotApplied <==> applied == 0 && base > 0
    ensures Classify(applied, base, total) == Partial <==> applied > 0 && base > 0
    ensures Classify(applied, base, total) == Unknown <==> applied == 0 && base == 0
  {
  }

  /** Some entry has outcome `o`. */
  predicate HasOutcome(sp: Space, image: seq<Byte>, entries: seq<PatchEntry>, o: Outcome) {
    exists i :: 0 <= i < |entries| && EntryOutcome(sp, image, entries[i]) == o
  }

  /**
   * The status of a patch with entries on a loaded image, in terms of its
   * entries: applied when some entry matches its patch pattern and none its
   * base pattern, not applied in the mirror case, partial when both occur,
   * unknown when neither does.
   */
  lemma StatusIff(sp: Space, image: seq<Byte>, entries: seq<PatchEntry>)
    requires entries != []
    ensures var s := PatchStatusOf(true, sp, image, entries);
      var p, b := HasOutcome(sp, image, entries, MatchesPatch), HasOutcome(sp, image, entries, MatchesBase);
      && (s == Applied <==> p && !b)
      && (s == NotApplied <==> !p && b)
      && (s == Partial <==> p && b)
      && (s == Unknown <==> !p && !b)
  {
    CountPartition(sp, image, entries);
    CountPositive(sp, image, entries, MatchesPatch);
    CountPositive(sp, image, entries, MatchesBase);
    ClassifyIff(Count(sp, image, entries, MatchesPatch), Count(sp, image, entries, MatchesBase), |entries|);
  }

  /** Without an image or without entries nothing is known. */
  lemma StatusWithoutData(loaded: bool, sp: Space, image: seq<Byte>, entries: seq<PatchEntry>)
    requires !loaded || entries == []
    ensures PatchStatusOf(loaded, sp, image, entries) == Unknown
  {
  }

  /**
   * For a pattern that is the hexadecimal text of some bytes, an entry of
   * that size matches the pattern exactly when the image holds those bytes
   * at the entry's resolved offset.
   */
  lemma MatchesPatchIffBytes(sp: Space, image: seq<Byte>, e: PatchEntry, bs: seq<Byte>)
    requires bs != [] && e.patchData == HexUpper(bs) && e.dataSize == |bs|
    ensures var off := Resolve(sp, e.address);
      EntryOutcome(sp, image, e) == MatchesPatch <==>
        0 <= off && off + |bs| <= |image| && image[off..off + |bs|] == bs
  {
    if InImage(sp, image, e) {
      MatchInImage(sp, image, e, bs);
    }
  }

  /** The in-image case: the entry matches exactly when the slice is the pattern's bytes. */
  lemma MatchInImage(sp: Space, image: seq<Byte>, e: PatchEntry, bs: seq<Byte>)
    requires bs != [] && e.patchData == HexUpper(bs) && e.dataSize == |bs|
    requires InImage(sp, image, e)
    ensures var off := Resolve(sp, e.address);
      EntryOutcome(sp, image, e) == MatchesPatch <==> image[off..off + |bs|] == bs
  {
    var off := Resolve(sp, e.address);
    assert e.patchData != "";
    MatchIffText(sp, image, e);
    TextIffBytes(image[off..off + e.dataSize], bs, e.patchData);
  }

  /** Against the text of some bytes, comparing texts is comparing bytes. */
  lemma TextIffBytes(slice: seq<Byte>, bs: seq<Byte>, pattern: string)
    requires pattern == HexUpper(bs)
    ensures HexUpper(slice) == pattern <==> slice == bs
  {
    SameTextSameBytes(slice, bs);
  }

  /** Inside the image, an entry with a non-empty patch pattern matches it exactly when the slice's text is the pattern. */
  lemma MatchIffText(sp: Space, image: seq<Byte>, e: PatchEntry)
    requires InImage(sp, image, e) && e.dataSize >= 0 && e.patchData != ""
    ensures var off := Resolve(sp, e.address);
      EntryOutcome(sp, image, e) == MatchesPatch <==> HexUpper(image[off..off + e.dataSize]) == e.patchData
  {
    ActualHexInImage(sp, image, e);
  }

  /** Inside the image, with a non-negative size, the Python slice is the ordinary one. */
  lemma ActualHexInImage(sp: Space, image: seq<Byte>, e: PatchEntry)
    requires InImage(sp, image, e) && e.dataSize >= 0
    ensures var off := Resolve(sp, e.address);
      ActualHex(sp, image, e) == HexUpper(image[off..off + e.dataSize])
  {
  }

  /** Equal hexadecimal text and equal bytes are the same thing. */
  lemma SameTextSameBytes(a: seq<Byte>, b: seq<Byte>)
    ensures HexUpper(a) == HexUpper(b) <==> a == b
  {
    if HexUpper(a) == HexUpper(b) {
      HexUpperInjective(a, b);
    }
  }

  /** A patch pattern with a lower-case letter never matches, which is why patterns are upper-cased first. */
  lemma LowerCasePatchNeverMatches(sp: Space, image: seq<Byte>, e: PatchEntry, i: nat)
    requires i < |e.patchData| && 'a' <= e.patchData[i] <= 'z'
    ensures EntryOutcome(sp, image, e) != MatchesPatch
  {
    if InImage(sp, image, e) {
      NoLowerCaseInActual(sp, image, e);
    }
  }

  /** A base pattern with a lower-case letter never matches either. */
  lemma LowerCaseBaseNeverMatches(sp: Space, image: seq<Byte>, e: PatchEntry, i: nat)
    requires i < |e.baseData| && 'a' <= e.baseData[i] <= 'z'
    ensures EntryOutcome(sp, image, e) != MatchesBase
  {
    if InImage(sp, image, e) {
      NoLowerCaseInActual(sp, image, e);
    }
  }

  /** The text read from the image is upper-case hexadecimal: it holds no lower-case letter. */
  lemma NoLowerCaseInActual(sp: Space, image: seq<Byte>, e: PatchEntry)
    requires InImage(sp, image, e)
    ensures forall j :: 0 <= j < |ActualHex(sp, image, e)| ==> !('a' <= ActualHex(sp, image, e)[j] <= 'z')
  {
    var off := Resolve(sp, e.address);
    var slice := PySlice(image, off, off + e.dataSize);
    assert ActualHex(sp, image, e) == HexUpper(slice);
    HexUpperDigits(slice);
  }

  /** One entry applied and one at its base bytes make a partially applied patch. */
  lemma PartialExample()
    ensures PatchStatusOf(true, NoOffset, [0x12, 0xAB],
      [PatchEntry("a", 0, 1, "12", "00"), PatchEntry("b", 1, 1, "FF", "AB")]) == Partial
  {
    var image: seq<Byte> := [0x12, 0xAB];
    var entries := [PatchEntry("a", 0, 1, "12", "00"), PatchEntry("b", 1, 1, "FF", "AB")];
    ExampleOutcomes();
    assert Outcomes(NoOffset, image, entries) == [MatchesPatch, MatchesBase];
  }

  /** The outcomes of the two example entries over the image `12 AB`. */
  lemma ExampleOutcomes()
    ensures EntryOutcome(NoOffset, [0x12, 0xAB], PatchEntry("a", 0, 1, "12", "00")) == MatchesPatch
    ensures EntryOutcome(NoOffset, [0x12, 0xAB], PatchEntry("b", 1, 1, "FF", "AB")) == MatchesBase
  {
    var image: seq<Byte> := [0x12, 0xAB];
    ActualHexInImage(NoOffset, image, PatchEntry("a", 0, 1, "12", "00"));
    ActualHexInImage(NoOffset, image, PatchEntry("b", 1, 1, "FF", "AB"));
    assert image[0..1] == [0x12] && image[1..2] == [0xAB];
    assert HexUpper([0x12]) == "12" && HexUpper([0xAB]) == "AB";
  }

  /** An entry past the end of the image is only skipped: the other entry alone decides. */
  lemma SkippedEntryExample()
    ensures PatchStatusOf(true, NoOffset, [0x12],
      [PatchEntry("a", 0, 1, "12", "00"), PatchEntry("b", 1, 1, "FF", "AB")]) == Applied
  {
    var image: seq<Byte> := [0x12];
    var entries := [PatchEntry("a", 0, 1, "12", "00"), PatchEntry("b", 1, 1, "FF", "AB")];
    assert image[0..1] == [0x12];
    assert HexUpper([0x12]) == "12";
    assert EntryOutcome(NoOffset, image, entries[0]) == MatchesPatch;
    assert EntryOutcome(NoOffset, image, entries[1]) == Skipped;
    StatusIff(NoOffset, image, entries);
  }

  /**
   * A negative `datasize` passes the offset check, and Python's slice then
   * counts the end from the back: with size -1 at offset 0 the entry compares
   * all bytes but the last.
   */
  lemma NegativeSizeExample()
    ensures EntryOutcome(NoOffset, [0x12, 0x34, 0x56], PatchEntry("n", 0, -1, "1234", "")) == MatchesPatch
  {
    var image: seq<Byte> := [0x12, 0x34, 0x56];
    assert PySlice(image, 0, -1) == [0x12, 0x34];
    assert HexUpper([0x12, 0x34]) == "1234";
  }
}
