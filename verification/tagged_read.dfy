/** `TaggedRead`: one read split into junk, barcode, linker and amplicon,
    the flags derived from it, and the statistics counters `PREDS` feeds. */
module TaggedReads {
  import opened Optional
  import opened PySlice

  /** One tagged read. `barcode` holds the barcode's id, not its sequence. */
  datatype TaggedRead = TaggedRead(
    header: string,
    qual: string,
    lenPrimer: int,
    junk: Option<string>,
    barcode: Option<string>,
    linker: Option<string>,
    amplicon: string,
    otherBarcodes: set<string>,
    barcodeMismatch: bool)

  /** `has_multiple_barcodes`. */
  predicate HasMultipleBarcodes(r: TaggedRead)
  {
    |r.otherBarcodes| > 0
  }

  /** `is_just_primer`: a barcode was found but what follows it is no longer than the primer. */
  predicate IsJustPrimer(r: TaggedRead)
  {
    r.barcode.Some? && |r.amplicon| <= r.lenPrimer
  }

  /** `is_regular`, as the truthiness of `self.barcode and not self.is_just_primer`. */
  predicate IsRegular(r: TaggedRead)
  {
    Truthy(r.barcode) && !IsJustPrimer(r)
  }

  /** The offset `cut_seq` starts at: junk length plus barcode-id length. */
  function CutOffset(r: TaggedRead): nat
  {
    |OrEmpty(r.junk)| + |OrEmpty(r.barcode)|
  }

  /** `cut_seq(seq)`: the piece of `s` as long as the amplicon, starting after
      as many characters as the junk and the barcode id have together. */
  function CutSeq(r: TaggedRead, s: string): (q: string)
    ensures |q| <= |r.amplicon|
    ensures CutOffset(r) + |r.amplicon| <= |s| ==> q == s[CutOffset(r) .. CutOffset(r) + |r.amplicon|]
    ensures CutOffset(r) <= |s| ==> q <= s[CutOffset(r)..]
    ensures CutOffset(r) <= |s| < CutOffset(r) + |r.amplicon| ==> q == s[CutOffset(r)..]
    ensures CutOffset(r) >= |s| ==> q == []
  {
    var ljb := |OrEmpty(r.junk)| + |OrEmpty(r.barcode)|;
    var ljba := ljb + |r.amplicon|;
    Slice(s, Some(ljb), Some(ljba))
  }

  /** The names of the statistics counters. */
  datatype Counter = OnlyPrimer | MultipleBcs | NoBarcode | BarcodeMismatch | Junk | Regular

  /** `PREDS`: when a read raises each counter, as Python truthiness. */
  predicate Pred(c: Counter, r: TaggedRead)
  {
    match c
    case OnlyPrimer => IsJustPrimer(r)
    case MultipleBcs => HasMultipleBarcodes(r)
    case NoBarcode => !Truthy(r.barcode)
    case BarcodeMismatch => r.barcodeMismatch
    case Junk => Truthy(r.junk)
    case Regular => IsRegular(r)
  }

  /** The `stats` dictionary. */
  datatype Stats = Stats(
    onlyPrimer: nat,
    multipleBcs: nat,
    noBarcode: nat,
    regular: nat,
    barcodeMismatch: nat,
    junk: nat)

  /** The statistics right after `ReadTagger.__init__`. */
  const NoReads := Stats(0, 0, 0, 0, 0, 0)

  function Count(s: Stats, c: Counter): nat
  {
    match c
    case OnlyPrimer => s.onlyPrimer
    case MultipleBcs => s.multipleBcs
    case NoBarcode => s.noBarcode
    case BarcodeMismatch => s.barcodeMismatch
    case Junk => s.junk
    case Regular => s.regular
  }

  /** The three counters that classify a read: no barcode, only primer, regular. */
  function Outcomes(s: Stats): nat
  {
    s.noBarcode + s.onlyPrimer + s.regular
  }

  function Indicator(b: bool): nat
  {
    if b then 1 else 0
  }

  /** The loop over `PREDS` that bumps the counters for one read. */
  function Record(s: Stats, r: TaggedRead): (s': Stats)
    ensures forall c :: Count(s', c) == Count(s, c) + Indicator(Pred(c, r))
    ensures (r.barcode.None? || r.barcode.value != "") ==> Outcomes(s') == Outcomes(s) + 1
  {
    Stats(
      s.onlyPrimer + Indicator(Pred(OnlyPrimer, r)),
      s.multipleBcs + Indicator(Pred(MultipleBcs, r)),
      s.noBarcode + Indicator(Pred(NoBarcode, r)),
      s.regular + Indicator(Pred(Regular, r)),
      s.barcodeMismatch + Indicator(Pred(BarcodeMismatch, r)),
      s.junk + Indicator(Pred(Junk, r)))
  }

  /** Recording a read raises each counter by zero or one; a read with no
      junk and no other barcodes leaves "junk" and "multiple barcodes" alone. */
  lemma RecordStep(s: Stats, r: TaggedRead)
    ensures forall c :: Count(Record(s, r), c) - Count(s, c) in {0, 1}
    ensures r.junk.None? && r.otherBarcodes == {} ==>
      && Count(Record(s, r), Junk) == Count(s, Junk)
      && Count(Record(s, r), MultipleBcs) == Count(s, MultipleBcs)
  {
  }

  /** Unless the barcode id is the empty string, exactly one of "no barcode",
      "only primer" and "regular" holds of a read. */
  lemma ClassifiedOnce(r: TaggedRead)
    requires r.barcode.None? || r.barcode.value != ""
    ensures Indicator(Pred(NoBarcode, r)) + Indicator(Pred(OnlyPrimer, r)) + Indicator(Pred(Regular, r)) == 1
  {
  }

  /** With an empty barcode id the classification is not exclusive: a read
      can count both as "no barcode" and as "only primer". */
  lemma EmptyIdCountedTwice(r: TaggedRead)
    requires r.barcode == Some("") && |r.amplicon| <= r.lenPrimer
    ensures Pred(NoBarcode, r) && Pred(OnlyPrimer, r) && !Pred(Regular, r)
    ensures Outcomes(Record(NoReads, r)) == 2
  {
  }
}
