/** `ReadTagger`: the pattern table built from the barcodes, the search for
    barcode occurrences in a read, and `tag_read`, which splits a read around
    its first occurrence and updates the statistics. */
module ReadTagging {
  import opened Optional
  import opened PySlice
  import opened Mismatches
  import opened BarcodeTable
  import opened TaggedReads

  /** The tagger's state. `patterns` is what the automaton is loaded with:
      every unambiguous pattern and the barcode it stands for. */
  datatype Tagger = Tagger(
    bcToId: map<string, string>,
    lenLinker: int,
    lenPrimer: int,
    patterns: map<string, string>,
    blacklist: map<string, set<Pair>>,
    stats: Option<Stats>)

  /** `order` lists the keys of `m` once each: a Python dict's key order. */
  predicate Lists(order: seq<string>, m: map<string, string>)
  {
    && Distinct(order)
    && (forall k :: k in m ==> k in order)
    && (forall k :: k in order ==> k in m)
  }

  /** Every pattern stands for a known barcode of the same length. */
  predicate Labelled(t: Tagger)
  {
    forall p :: p in t.patterns ==> t.patterns[p] in t.bcToId && |t.patterns[p]| == |p|
  }

  /** A labelled table whose every pattern is its barcode or one of that
      barcode's one-base variants. */
  predicate Valid(t: Tagger)
  {
    && Labelled(t)
    && forall p {:trigger Patterns(t.patterns[p])} :: p in t.patterns ==> p in Patterns(t.patterns[p])
  }

  /** The patterns `get_all_barcodes` keeps stand for input barcodes of
      their own length, each generated by the barcode it stands for. */
  lemma FoundIsValid(order: seq<string>, maxMm: int)
    requires GetAllBarcodes(order, maxMm).Success?
    ensures var found := GetAllBarcodes(order, maxMm).value.found;
      forall p :: p in found ==> found[p] in order && |found[p]| == |p| && p in Patterns(found[p])
  {
    if maxMm == 1 {
      GetAllBarcodesUnique(order);
      var found := GetAllBarcodes(order, maxMm).value.found;
      forall p | p in found
        ensures found[p] in order && |found[p]| == |p| && p in Patterns(found[p])
      {
        PatternLength(found[p], p);
      }
    } else {
      assert Scan(NoTables, order, maxMm) == Success(NoTables);
    }
  }

  /** `ReadTagger.__init__`: statistics start at zero (or are off), and the
      automaton holds the unambiguous patterns of the dict's keys, in key order. */
  function NewTagger(
    order: seq<string>, bcToId: map<string, string>,
    lenLinker: int, lenPrimer: int, maxMm: int, useStats: bool): (r: Result<Tagger, Error>)
    requires Lists(order, bcToId)
    ensures maxMm == 1 ==> r.Success?
    ensures maxMm != 1 ==> (r.Failure? <==> |order| > 0)
    ensures r.Success? ==> Valid(r.value)
    // the automaton holds what `get_all_barcodes` keeps; the rest is blacklisted
    ensures r.Success? ==>
      && r.value.patterns == GetAllBarcodes(order, maxMm).value.found
      && r.value.blacklist == GetAllBarcodes(order, maxMm).value.blacklist
    ensures r.Success? ==>
      && r.value.bcToId == bcToId && r.value.lenLinker == lenLinker && r.value.lenPrimer == lenPrimer
      && r.value.stats == (if useStats then Some(NoReads) else None)
      && r.value.patterns.Keys !! r.value.blacklist.Keys
    ensures maxMm == 1 ==> r.value.patterns.Keys + r.value.blacklist.Keys == AllPatterns(order)
  {
    match GetAllBarcodes(order, maxMm)
    case Failure(e) => Failure(e)
    case Success(tables) =>
      FoundIsValid(order, maxMm);
      GetAllBarcodesCoversPatterns(order);
      Success(Tagger(bcToId, lenLinker, lenPrimer, tables.found, tables.blacklist,
                     if useStats then Some(NoReads) else None))
  }

  // ---------------------------------------------------------------------
  // Searching a read.

  /** One item of the automaton's iteration: the index of the last character
      of an occurrence and the barcode its pattern stands for. */
  datatype Hit = Hit(end: int, barcode: string)

  /** One item yielded by `search_barcode`: the half-open span of the occurrence. */
  datatype Span = Span(start: int, stop: int, barcode: string)

  /** The automaton reports only real occurrences: the read holds, ending at
      index `h.end`, a pattern that stands for `h.barcode`. */
  predicate Occurs(patterns: map<string, string>, read: string, h: Hit)
  {
    var start := h.end - |h.barcode| + 1;
    && 0 <= h.end < |read| && 0 <= start
    && read[start .. h.end + 1] in patterns
    && patterns[read[start .. h.end + 1]] == h.barcode
  }

  /** Every hit is a real occurrence in `read`. */
  predicate Searched(patterns: map<string, string>, read: string, hits: seq<Hit>)
  {
    forall h :: h in hits ==> Occurs(patterns, read, h)
  }

  /** `search_barcode`: each hit becomes the span of read characters that
      matched a pattern standing for its barcode. */
  function SearchBarcode(t: Tagger, read: string, hits: seq<Hit>): (spans: seq<Span>)
    ensures |spans| == |hits|
    ensures forall k :: 0 <= k < |hits| ==>
      && spans[k].barcode == hits[k].barcode && spans[k].stop == hits[k].end + 1
      && spans[k].start == hits[k].end + 1 - |hits[k].barcode|
    ensures Labelled(t) && Searched(t.patterns, read, hits) ==> forall k :: 0 <= k < |spans| ==>
      && 0 <= spans[k].start <= spans[k].stop <= |read|
      && spans[k].stop - spans[k].start == |spans[k].barcode|
      && read[spans[k].start .. spans[k].stop] in t.patterns
      && t.patterns[read[spans[k].start .. spans[k].stop]] == spans[k].barcode
  {
    var spans := seq(|hits|, k requires 0 <= k < |hits| =>
      Span(hits[k].end - |hits[k].barcode| + 1, hits[k].end + 1, hits[k].barcode));
    assert Searched(t.patterns, read, hits) ==> forall k :: 0 <= k < |hits| ==> Occurs(t.patterns, read, hits[k]);
    spans
  }

  /** The index of the first occurrence of `x` in `s`. */
  function IndexOf<T(==)>(s: seq<T>, x: T): (i: nat)
    requires x in s
    ensures i < |s| && s[i] == x && x !in s[..i]
  {
    if s[0] == x then 0 else 1 + IndexOf(s[1..], x)
  }

  /** A value occurring in a prefix is first found inside that prefix. */
  lemma IndexOfPrefix<T>(s: seq<T>, n: nat, x: T)
    requires n <= |s| && x in s[..n]
    ensures IndexOf(s, x) == IndexOf(s[..n], x)
  {
    var i := IndexOf(s[..n], x);
    assert s[..i] == s[..n][..i];
  }

  /** An `OrderedDict` used as an ordered set: each value once, the first
      value first (`DedupOrder` states the rest of the order). */
  function Dedup<T(==)>(s: seq<T>): (d: seq<T>)
    ensures forall x :: x in d ==> x in s
    ensures forall x :: x in s ==> x in d
    ensures Distinct(d)
    ensures |s| > 0 ==> |d| > 0 && d[0] == s[0]
    decreases |s|
  {
    if |s| == 0 then []
    else
      var init := s[..|s| - 1];
      var last := s[|s| - 1];
      var d := Dedup(init);
      assert forall x :: x in s ==> x in init || x == last;
      assert forall x :: x in init ==> x in s;
      if last in d then d
      else
        DistinctConcat(d, [last]);
        assert |init| > 0 ==> d[0] == init[0] == s[0];
        d + [last]
  }

  /** `Dedup` lists the values in the order of their first occurrence. */
  lemma {:induction false} DedupOrder<T>(s: seq<T>)
    ensures forall i, j :: 0 <= i < j < |Dedup(s)| ==> IndexOf(s, Dedup(s)[i]) < IndexOf(s, Dedup(s)[j])
    decreases |s|
  {
    if |s| > 0 {
      var init := s[..|s| - 1];
      var last := s[|s| - 1];
      DedupOrder(init);
      forall x | x in init
        ensures IndexOf(s, x) == IndexOf(init, x) < |s| - 1
      {
        IndexOfPrefix(s, |s| - 1, x);
      }
      if last !in init {
        assert IndexOf(s, last) == |s| - 1 by {
          assert s[..|s| - 1] == init;
        }
      }
    }
  }

  // ---------------------------------------------------------------------
  // Tagging one read.

  /** The result of `tag_read`: the tagged read and the tagger with its updated statistics. */
  datatype Tagged = Tagged(read: TaggedRead, tagger: Tagger)

  /** The ids of the barcodes of some spans. */
  function IdsOf(t: Tagger, spans: seq<Span>): set<string>
    requires forall s :: s in spans ==> s.barcode in t.bcToId
  {
    set s | s in spans :: t.bcToId[s.barcode]
  }

  /** The ids of the barcodes of all hits. */
  function HitIds(t: Tagger, hits: seq<Hit>): set<string>
    requires forall h :: h in hits ==> h.barcode in t.bcToId
  {
    set h | h in hits :: t.bcToId[h.barcode]
  }

  /** No barcode id is the empty string. */
  predicate NonEmptyIds(t: Tagger)
  {
    forall bc :: bc in t.bcToId ==> t.bcToId[bc] != ""
  }

  /** Every hit of a real occurrence names a barcode with an id. */
  lemma HitsAreKnown(t: Tagger, read: string, hits: seq<Hit>)
    requires Labelled(t) && Searched(t.patterns, read, hits)
    ensures forall h :: h in hits ==> h.barcode in t.bcToId
  {
    forall h | h in hits
      ensures h.barcode in t.bcToId
    {
      assert Occurs(t.patterns, read, h);
    }
  }

  /** The read text a real occurrence stands on is its barcode or a
      one-base variant of it. */
  lemma MatchedAt(t: Tagger, read: string, h: Hit)
    requires Valid(t) && Occurs(t.patterns, read, h)
    ensures var start := h.end + 1 - |h.barcode|;
      && 0 <= start <= start + |h.barcode| <= |read|
      && read[start .. start + |h.barcode|] in Patterns(h.barcode)
      && (read[start .. start + |h.barcode|] == h.barcode || OneSubstitution(h.barcode, read[start .. start + |h.barcode|]))
  {
    var p := read[h.end + 1 - |h.barcode| .. h.end + 1];
    assert p in t.patterns && t.patterns[p] == h.barcode;
    assert p in Patterns(t.patterns[p]);
    PatternIsVariant(h.barcode, p);
  }

  /** `MatchedAt` for the first hit, the one `tag_read` splits around. */
  lemma MatchedVariant(t: Tagger, read: string, hits: seq<Hit>)
    requires Valid(t) && Searched(t.patterns, read, hits)
    ensures |hits| > 0 ==>
      var h := hits[0];
      var start := h.end + 1 - |h.barcode|;
      && 0 <= start <= start + |h.barcode| <= |read|
      && read[start .. start + |h.barcode|] in Patterns(h.barcode)
      && (read[start .. start + |h.barcode|] == h.barcode || OneSubstitution(h.barcode, read[start .. start + |h.barcode|]))
  {
    if |hits| > 0 {
      assert hits[0] in hits;
      MatchedAt(t, read, hits[0]);
    }
  }

  /** Dropping duplicate spans and the chosen id leaves the ids of all other hits. */
  lemma OtherIds(t: Tagger, read: string, hits: seq<Hit>)
    requires Labelled(t) && Searched(t.patterns, read, hits) && |hits| > 0
    ensures forall h :: h in hits ==> h.barcode in t.bcToId
    ensures var matches := Dedup(SearchBarcode(t, read, hits));
      && |matches| > 0 && matches[0].barcode == hits[0].barcode
      && (forall s :: s in matches ==> s.barcode in t.bcToId)
      && IdsOf(t, matches[1..]) - {t.bcToId[hits[0].barcode]}
           == HitIds(t, hits) - {t.bcToId[hits[0].barcode]}
  {
    HitsAreKnown(t, read, hits);
    DedupIds(t, hits, SearchBarcode(t, read, hits));
  }

  /** `OtherIds` for any spans that carry the hits' barcodes in order. */
  lemma DedupIds(t: Tagger, hits: seq<Hit>, spans: seq<Span>)
    requires |spans| == |hits| > 0
    requires forall k :: 0 <= k < |hits| ==> spans[k].barcode == hits[k].barcode
    requires forall h :: h in hits ==> h.barcode in t.bcToId
    ensures var matches := Dedup(spans);
      && |matches| > 0 && matches[0].barcode == hits[0].barcode
      && (forall s :: s in matches ==> s.barcode in t.bcToId)
      && IdsOf(t, matches[1..]) - {t.bcToId[hits[0].barcode]}
           == HitIds(t, hits) - {t.bcToId[hits[0].barcode]}
  {
    var matches := Dedup(spans);
    var chosen := t.bcToId[hits[0].barcode];
    forall s | s in spans
      ensures s.barcode in t.bcToId
    {
      var k :| 0 <= k < |spans| && spans[k] == s;
      assert hits[k] in hits;
    }
    forall id
      ensures id in IdsOf(t, matches[1..]) - {chosen} <==> id in HitIds(t, hits) - {chosen}
    {
      if id in IdsOf(t, matches[1..]) - {chosen} {
        var s :| s in matches[1..] && t.bcToId[s.barcode] == id;
        assert s in matches;
        var k :| 0 <= k < |spans| && spans[k] == s;
        assert hits[k] in hits && hits[k].barcode == s.barcode;
      }
      if id in HitIds(t, hits) - {chosen} {
        var h :| h in hits && t.bcToId[h.barcode] == id;
        var k :| 0 <= k < |hits| && hits[k] == h;
        assert spans[k] in matches;
        var i :| 0 <= i < |matches| && matches[i] == spans[k];
        assert i != 0;
        assert matches[i] in matches[1..];
      }
    }
  }

  /** Cutting a read at the barcode's span and `lenLinker` characters after it. */
  lemma SplitAround(read: string, bcStart: int, bcEnd: int, lenLinker: int)
    requires 0 <= bcStart <= bcEnd <= |read|
    ensures Slice(read, None, Some(bcStart)) == read[..bcStart]
    ensures Slice(read, Some(bcStart), Some(bcEnd)) == read[bcStart..bcEnd]
    ensures lenLinker >= 0 ==>
      && read[..bcStart] + read[bcStart..bcEnd]
           + Slice(read, Some(bcEnd), Some(bcEnd + lenLinker)) + Slice(read, Some(bcEnd + lenLinker), None) == read
      && |Slice(read, Some(bcEnd), Some(bcEnd + lenLinker))| <= lenLinker
      && (bcEnd + lenLinker <= |read| ==> |Slice(read, Some(bcEnd), Some(bcEnd + lenLinker))| == lenLinker)
      && (var linkerEnd := if bcEnd + lenLinker <= |read| then bcEnd + lenLinker else |read|;
          && Slice(read, Some(bcEnd), Some(bcEnd + lenLinker)) == read[bcEnd .. linkerEnd]
          && Slice(read, Some(bcEnd + lenLinker), None) == read[linkerEnd..])
  {
    SliceInRange(read, bcStart, bcEnd);
    if lenLinker >= 0 {
      var linker := Slice(read, Some(bcEnd), Some(bcEnd + lenLinker));
      var amplicon := Slice(read, Some(bcEnd + lenLinker), None);
      SliceSplit(read, bcEnd, bcEnd + lenLinker);
      assert linker + amplicon == read[bcEnd..];
      assert read[..bcStart] + read[bcStart..bcEnd] == read[..bcEnd];
      assert read[..bcEnd] + linker + amplicon == read[..bcEnd] + (linker + amplicon);
      assert read[..bcEnd] + read[bcEnd..] == read;
    }
  }

  /** `r` is `read` cut around the occurrence `h`: the junk before it,
      the id of its barcode, whether the matched text differs from the
      barcode, and, for a non-negative linker length, a linker of at most
      `lenLinker` characters (exactly that many when the read is long
      enough, else the rest of the read) and the amplicon after it, the four
      pieces making up the read. */
  predicate CutAround(t: Tagger, read: string, h: Hit, r: TaggedRead)
  {
    var start := h.end + 1 - |h.barcode|;
    && 0 <= start <= start + |h.barcode| <= |read|
    && h.barcode in t.bcToId && r.barcode == Some(t.bcToId[h.barcode])
    && (r.junk.None? <==> start == 0) && OrEmpty(r.junk) == read[..start]
    && r.linker.Some?
    && (r.barcodeMismatch <==> read[start .. start + |h.barcode|] != h.barcode)
    && (t.lenLinker >= 0 ==>
          && OrEmpty(r.junk) + read[start .. start + |h.barcode|] + r.linker.value + r.amplicon == read
          && |r.linker.value| <= t.lenLinker
          && (start + |h.barcode| + t.lenLinker <= |read| ==> |r.linker.value| == t.lenLinker)
          // the linker stops `lenLinker` after the barcode or at the read's end; the amplicon follows it
          && (var linkerEnd := if start + |h.barcode| + t.lenLinker <= |read| then start + |h.barcode| + t.lenLinker else |read|;
                && r.linker.value == read[start + |h.barcode| .. linkerEnd]
                && r.amplicon == read[linkerEnd..]))
  }

  /** `tag_read`. The read is split around the first reported occurrence;
      `hits` stands for the automaton's iteration over the read. */
  function TagRead(t: Tagger, header: string, read: string, qual: string, hits: seq<Hit>): (r: Tagged)
    requires Valid(t) && Searched(t.patterns, read, hits)
    // only the statistics change, and they change by recording this read
    ensures r.tagger == t.(stats := r.tagger.stats)
    ensures r.tagger.stats.Some? <==> t.stats.Some?
    ensures t.stats.Some? ==> r.tagger.stats.value == Record(t.stats.value, r.read)
    ensures r.read.header == header && r.read.qual == qual && r.read.lenPrimer == t.lenPrimer
    // no occurrence: the whole read is the amplicon
    ensures |hits| == 0 ==>
      && r.read.barcode.None? && r.read.junk.None? && r.read.linker.None?
      && r.read.amplicon == read && !r.read.barcodeMismatch && r.read.otherBarcodes == {}
    // an occurrence: junk, barcode, linker and amplicon around the first one
    ensures |hits| > 0 ==> CutAround(t, read, hits[0], r.read)
    // the matched text is the barcode or, when flagged a mismatch, one of its one-base variants
    ensures |hits| > 0 ==>
      var h := hits[0];
      var start := h.end + 1 - |h.barcode|;
      && 0 <= start <= start + |h.barcode| <= |read|
      && read[start .. start + |h.barcode|] in Patterns(h.barcode)
      && (r.read.barcodeMismatch ==> OneSubstitution(h.barcode, read[start .. start + |h.barcode|]))
    // the other barcodes: the ids of every other hit, never the chosen one
    ensures forall h :: h in hits ==> h.barcode in t.bcToId
    ensures |hits| > 0 ==>
      r.read.otherBarcodes == HitIds(t, hits) - {t.bcToId[hits[0].barcode]}
    ensures HasMultipleBarcodes(r.read) <==>
      exists h :: h in hits && t.bcToId[h.barcode] != t.bcToId[hits[0].barcode]
    // the statistics
    ensures t.stats.Some? ==> forall c :: Count(r.tagger.stats.value, c) - Count(t.stats.value, c) in {0, 1}
    ensures t.stats.Some? && |hits| == 0 ==>
      && Count(r.tagger.stats.value, Junk) == Count(t.stats.value, Junk)
      && Count(r.tagger.stats.value, MultipleBcs) == Count(t.stats.value, MultipleBcs)
    ensures t.stats.Some? && NonEmptyIds(t) ==> Outcomes(r.tagger.stats.value) == Outcomes(t.stats.value) + 1
  {
    HitsAreKnown(t, read, hits);
    SplitFacts(t, header, read, qual, hits);
    MatchedVariant(t, read, hits);
    var tagged := Split(t, header, read, qual, Dedup(SearchBarcode(t, read, hits)));
    RecordStep(t.stats.ValueOr(NoReads), tagged);
    Tagged(tagged, t.(stats := if t.stats.Some? then Some(Record(t.stats.value, tagged)) else None))
  }

  /** `bc_to_id.get(barcode)`. */
  function GetId(t: Tagger, barcode: string): Option<string>
  {
    if barcode in t.bcToId then Some(t.bcToId[barcode]) else None
  }

  /** `{x}` for an optional `x`, as a set of strings. */
  function AsSet(x: Option<string>): set<string>
  {
    if x.Some? then {x.value} else {}
  }

  /** The body of `tag_read` up to building the `TaggedRead`, given the
      deduplicated spans in search order. */
  function Split(t: Tagger, header: string, read: string, qual: string, matches: seq<Span>): TaggedRead
    requires forall s :: s in matches ==> s.barcode in t.bcToId
  {
    if |matches| == 0 then
      TaggedRead(header, qual, t.lenPrimer, None, None, None, read, {}, false)
    else
      var first := matches[0];
      var bcId := GetId(t, first.barcode);
      var others := IdsOf(t, matches[1..]) - AsSet(bcId);
      var bcStart := first.start;
      var bcEnd := first.stop;
      // `if bc_end`: under `Occurs` a span always ends after the read's first character
      var linkerEnd: Option<int> := if bcEnd != 0 then Some(bcEnd + t.lenLinker) else None;
      var junk := Slice(read, None, Some(bcStart));
      var linker := Slice(read, Some(bcEnd), linkerEnd);
      var amplicon := Slice(read, linkerEnd, None);
      var mismatch := Slice(read, Some(bcStart), Some(bcEnd)) != first.barcode;
      TaggedRead(header, qual, t.lenPrimer, if junk == "" then None else Some(junk), bcId,
                 Some(linker), amplicon, others, mismatch)
  }

  /** What `Split` computes for the spans of real occurrences. */
  lemma SplitFacts(t: Tagger, header: string, read: string, qual: string, hits: seq<Hit>)
    requires Labelled(t) && Searched(t.patterns, read, hits)
    ensures forall h :: h in hits ==> h.barcode in t.bcToId
    ensures forall s :: s in Dedup(SearchBarcode(t, read, hits)) ==> s.barcode in t.bcToId
    ensures var r := Split(t, header, read, qual, Dedup(SearchBarcode(t, read, hits)));
      && r.header == header && r.qual == qual && r.lenPrimer == t.lenPrimer
      && (|hits| == 0 ==>
            && r.barcode.None? && r.junk.None? && r.linker.None?
            && r.amplicon == read && !r.barcodeMismatch && r.otherBarcodes == {})
      && (|hits| > 0 ==>
            && CutAround(t, read, hits[0], r)
            && r.otherBarcodes == HitIds(t, hits) - {t.bcToId[hits[0].barcode]})
      && (HasMultipleBarcodes(r) <==> exists h :: h in hits && t.bcToId[h.barcode] != t.bcToId[hits[0].barcode])
  {
    HitsAreKnown(t, read, hits);
    if |hits| > 0 {
      SplitSegments(t, header, read, qual, hits);
      SplitOthers(t, header, read, qual, hits);
    }
  }

  /** The junk, barcode, linker and amplicon `Split` cuts around the first occurrence. */
  lemma SplitSegments(t: Tagger, header: string, read: string, qual: string, hits: seq<Hit>)
    requires Labelled(t) && Searched(t.patterns, read, hits) && |hits| > 0
    ensures forall s :: s in Dedup(SearchBarcode(t, read, hits)) ==> s.barcode in t.bcToId
    ensures hits[0].barcode in t.bcToId
    ensures CutAround(t, read, hits[0], Split(t, header, read, qual, Dedup(SearchBarcode(t, read, hits))))
  {
    HitsAreKnown(t, read, hits);
    var spans := SearchBarcode(t, read, hits);
    var first := Dedup(spans)[0];
    assert first == spans[0];
    assert first.start == hits[0].end + 1 - |hits[0].barcode|;
    assert Occurs(t.patterns, read, hits[0]) by { assert hits[0] in hits; }
    SplitAround(read, first.start, first.stop, t.lenLinker);
    var r := Split(t, header, read, qual, Dedup(spans));
    assert first.stop != 0 && first.stop == first.start + |hits[0].barcode|;
    assert OrEmpty(r.junk) == read[..first.start];
    assert r.linker.value == Slice(read, Some(first.stop), Some(first.stop + t.lenLinker));
    assert r.amplicon == Slice(read, Some(first.stop + t.lenLinker), None);
  }

  /** The other barcodes `Split` reports: the ids of the other hits. */
  lemma SplitOthers(t: Tagger, header: string, read: string, qual: string, hits: seq<Hit>)
    requires Labelled(t) && Searched(t.patterns, read, hits) && |hits| > 0
    ensures forall h :: h in hits ==> h.barcode in t.bcToId
    ensures forall s :: s in Dedup(SearchBarcode(t, read, hits)) ==> s.barcode in t.bcToId
    ensures var r := Split(t, header, read, qual, Dedup(SearchBarcode(t, read, hits)));
      && r.otherBarcodes == HitIds(t, hits) - {t.bcToId[hits[0].barcode]}
      && (HasMultipleBarcodes(r) <==> exists h :: h in hits && t.bcToId[h.barcode] != t.bcToId[hits[0].barcode])
  {
    HitsAreKnown(t, read, hits);
    OtherIds(t, read, hits);
    var matches := Dedup(SearchBarcode(t, read, hits));
    var r := Split(t, header, read, qual, matches);
    var chosen := t.bcToId[hits[0].barcode];
    SplitOtherIds(t, header, read, qual, matches, chosen);
    OtherHitIds(t, hits, chosen);
  }

  /** Some hit has another id exactly when removing `chosen` leaves an id. */
  lemma OtherHitIds(t: Tagger, hits: seq<Hit>, chosen: string)
    requires forall h :: h in hits ==> h.barcode in t.bcToId
    ensures |HitIds(t, hits) - {chosen}| > 0 <==> exists h :: h in hits && t.bcToId[h.barcode] != chosen
  {
    if exists h :: h in hits && t.bcToId[h.barcode] != chosen {
      var h :| h in hits && t.bcToId[h.barcode] != chosen;
      assert t.bcToId[h.barcode] in HitIds(t, hits) - {chosen};
    }
  }

  /** `Split` reports the ids of the later spans, less the chosen one. */
  lemma SplitOtherIds(t: Tagger, header: string, read: string, qual: string, matches: seq<Span>, chosen: string)
    requires forall s :: s in matches ==> s.barcode in t.bcToId
    requires |matches| > 0 && matches[0].barcode in t.bcToId && t.bcToId[matches[0].barcode] == chosen
    ensures Split(t, header, read, qual, matches).otherBarcodes == IdsOf(t, matches[1..]) - {chosen}
  {
    assert GetId(t, matches[0].barcode) == Some(chosen);
  }

  // ---------------------------------------------------------------------
  // Tagging a stream of reads, and the cut of the quality string.

  /** One read as `tag_read` receives it, with the automaton's hits in it. */
  datatype ReadIn = ReadIn(header: string, sequence: string, qual: string, hits: seq<Hit>)

  /** `tag_read` called on each input in turn, threading the statistics. */
  function TagAll(t: Tagger, inputs: seq<ReadIn>): (r: Tagger)
    requires Valid(t)
    requires forall k :: 0 <= k < |inputs| ==> Searched(t.patterns, inputs[k].sequence, inputs[k].hits)
    ensures r == t.(stats := r.stats)
    ensures r.stats.Some? <==> t.stats.Some?
    decreases |inputs|
  {
    if |inputs| == 0 then t
    else
      var x := inputs[0];
      var t' := TagRead(t, x.header, x.sequence, x.qual, x.hits).tagger;
      TagAll(t', inputs[1..])
  }

  /** Over a stream of inputs, when no barcode id is empty, every read is
      counted once as "no barcode", "only primer" or "regular", and no
      counter rises by more than the number of reads. */
  lemma {:induction false} StatsConservation(t: Tagger, inputs: seq<ReadIn>)
    requires Valid(t) && t.stats.Some?
    requires forall k :: 0 <= k < |inputs| ==> Searched(t.patterns, inputs[k].sequence, inputs[k].hits)
    ensures var s := TagAll(t, inputs).stats.value;
      forall c :: Count(t.stats.value, c) <= Count(s, c) <= Count(t.stats.value, c) + |inputs|
    ensures NonEmptyIds(t) ==> Outcomes(TagAll(t, inputs).stats.value) == Outcomes(t.stats.value) + |inputs|
    decreases |inputs|
  {
    if |inputs| > 0 {
      var x := inputs[0];
      var t' := TagRead(t, x.header, x.sequence, x.qual, x.hits).tagger;
      assert forall k :: 0 <= k < |inputs[1..]| ==> inputs[1..][k] == inputs[k + 1];
      StatsConservation(t', inputs[1..]);
      assert NonEmptyIds(t) ==> NonEmptyIds(t');
    }
  }

  /** `cut_seq` of the read itself returns the amplicon when the barcode id
      is as long as the matched barcode and a full-length linker together:
      its offset counts the id, not the barcode sequence, and not the linker. */
  lemma CutSeqOfRead(t: Tagger, header: string, read: string, qual: string, hits: seq<Hit>)
    requires Valid(t) && Searched(t.patterns, read, hits) && |hits| > 0 && t.lenLinker >= 0
    requires hits[0].barcode in t.bcToId && |t.bcToId[hits[0].barcode]| == |hits[0].barcode| + t.lenLinker
    requires hits[0].end + 1 + t.lenLinker <= |read|
    ensures var r := TagRead(t, header, read, qual, hits).read; CutSeq(r, read) == r.amplicon
  {
    CutSeqOfCut(t, read, hits[0], TagRead(t, header, read, qual, hits).read);
  }

  /** The alignment argument of `CutSeqOfRead` for any read cut around `h`. */
  lemma CutSeqOfCut(t: Tagger, read: string, h: Hit, r: TaggedRead)
    requires CutAround(t, read, h, r) && t.lenLinker >= 0
    requires |t.bcToId[h.barcode]| == |h.barcode| + t.lenLinker && h.end + 1 + t.lenLinker <= |read|
    ensures CutSeq(r, read) == r.amplicon
  {
    var start := h.end + 1 - |h.barcode|;
    var front := OrEmpty(r.junk) + read[start .. start + |h.barcode|] + r.linker.value;
    assert r.amplicon == read[|front|..];
    assert |front| == CutOffset(r);
    CutSeqAligned(r, read);
  }

  /** A read that ends before a full linker has an empty amplicon, so it
      counts as "only primer" for any non-negative primer length. */
  lemma ShortReadOnlyPrimer(t: Tagger, header: string, read: string, qual: string, hits: seq<Hit>)
    requires Valid(t) && Searched(t.patterns, read, hits) && |hits| > 0
    requires t.lenLinker >= 0 && t.lenPrimer >= 0 && hits[0].end + 1 + t.lenLinker > |read|
    ensures var r := TagRead(t, header, read, qual, hits).read;
      && r.amplicon == "" && r.linker.value == read[hits[0].end + 1..]
      && IsJustPrimer(r)
  {
    ShortCut(t, read, hits[0], TagRead(t, header, read, qual, hits).read);
  }

  /** The linker and amplicon of any read cut around `h` that ends before a full linker. */
  lemma ShortCut(t: Tagger, read: string, h: Hit, r: TaggedRead)
    requires CutAround(t, read, h, r) && t.lenLinker >= 0 && h.end + 1 + t.lenLinker > |read|
    ensures r.amplicon == "" && r.linker.value == read[h.end + 1..] && r.barcode.Some?
  {
    assert h.end + 1 - |h.barcode| + |h.barcode| == h.end + 1;
  }

  /** `cut_seq` returns the amplicon of a read that ends in the amplicon
      right after the cut offset. */
  lemma CutSeqAligned(r: TaggedRead, read: string)
    requires CutOffset(r) <= |read| && r.amplicon == read[CutOffset(r)..]
    ensures CutSeq(r, read) == r.amplicon
  {
  }

  /** With a one-character id for a two-base barcode and no linker, `cut_seq`
      of the read starts one character before the amplicon. */
  lemma CutSeqMisaligned()
    ensures var t := Tagger(map["AC" := "x"], 0, 0, map["AC" := "AC"], map[], None);
      && Valid(t) && Searched(t.patterns, "ACGT", [Hit(1, "AC")])
      && TagRead(t, "", "ACGT", "", [Hit(1, "AC")]).read.amplicon == "GT"
      && CutSeq(TagRead(t, "", "ACGT", "", [Hit(1, "AC")]).read, "ACGT") == "CG"
  {
    var t := Tagger(map["AC" := "x"], 0, 0, map["AC" := "AC"], map[], None);
    var read := "ACGT";
    var hits := [Hit(1, "AC")];
    assert read[0..2] == "AC";
    assert Occurs(t.patterns, read, hits[0]);
    assert Searched(t.patterns, read, hits);
    var r := TagRead(t, "", read, "", hits).read;
    assert r.junk.None? && r.barcode == Some("x");
    assert |r.linker.value| == 0;
    var front := OrEmpty(r.junk) + read[0..2] + r.linker.value;
    assert r.amplicon == read[|front|..] == read[2..] == "GT";
    CutSeqShifted(r);
  }

  /** The cut of `"ACGT"` for a read with no junk and the id `"x"`. */
  lemma CutSeqShifted(r: TaggedRead)
    requires r.junk.None? && r.barcode == Some("x") && r.amplicon == "GT"
    ensures CutSeq(r, "ACGT") == "CG"
  {
    assert CutOffset(r) == 1;
    assert "ACGT"[1..3] == "CG";
  }


  // ---------------------------------------------------------------------
  // `get_tagger`.

  /** The barcodes of `(id, barcode)` pairs, in order. */
  function BarcodesOf(pairs: seq<(string, string)>): (bcs: seq<string>)
    ensures |bcs| == |pairs| && forall j :: 0 <= j < |pairs| ==> bcs[j] == pairs[j].1
  {
    seq(|pairs|, j requires 0 <= j < |pairs| => pairs[j].1)
  }

  /** Each key of `m` maps to the id of the last pair naming it. */
  ghost predicate LastWins(pairs: seq<(string, string)>, m: map<string, string>)
  {
    forall bc :: bc in m ==>
      exists j :: 0 <= j < |pairs| && pairs[j] == (m[bc], bc) && forall j' :: j < j' < |pairs| ==> pairs[j'].1 != bc
  }

  /** `{bc: id_ for id_, bc in id_to_bc}`: a later pair for the same barcode
      overwrites the id, and the barcode keeps the place of its first pair. */
  function InvertPairs(pairs: seq<(string, string)>): (r: (seq<string>, map<string, string>))
    ensures r.0 == Dedup(BarcodesOf(pairs))
    ensures Lists(r.0, r.1)
    ensures LastWins(pairs, r.1)
    decreases |pairs|
  {
    if |pairs| == 0 then ([], map[])
    else
      var rec := InvertPairs(pairs[..|pairs| - 1]);
      var (id, bc) := pairs[|pairs| - 1];
      InvertStep(pairs, rec.0, rec.1);
      (if bc in rec.1 then rec.0 else rec.0 + [bc], rec.1[bc := id])
  }

  /** One more pair keeps the invariants of the inverted dict. */
  lemma InvertStep(pairs: seq<(string, string)>, order: seq<string>, m: map<string, string>)
    requires |pairs| > 0
    requires order == Dedup(BarcodesOf(pairs[..|pairs| - 1]))
    requires Lists(order, m) && LastWins(pairs[..|pairs| - 1], m)
    ensures var (id, bc) := pairs[|pairs| - 1];
      var order' := if bc in m then order else order + [bc];
      && order' == Dedup(BarcodesOf(pairs))
      && Lists(order', m[bc := id])
      && LastWins(pairs, m[bc := id])
  {
    InvertOrder(pairs, order, m);
    InvertLastWins(pairs, m);
  }

  /** The key order after one more pair: a new barcode goes last. */
  lemma InvertOrder(pairs: seq<(string, string)>, order: seq<string>, m: map<string, string>)
    requires |pairs| > 0
    requires order == Dedup(BarcodesOf(pairs[..|pairs| - 1]))
    requires Lists(order, m)
    ensures var bc := pairs[|pairs| - 1].1;
      var order' := if bc in m then order else order + [bc];
      order' == Dedup(BarcodesOf(pairs)) && Lists(order', m[bc := pairs[|pairs| - 1].0])
  {
    var bcs := BarcodesOf(pairs);
    assert bcs[..|pairs| - 1] == BarcodesOf(pairs[..|pairs| - 1]);
    assert bcs[|bcs| - 1] == pairs[|pairs| - 1].1;
  }

  /** After one more pair its barcode maps to its id; other barcodes keep their last pair. */
  lemma InvertLastWins(pairs: seq<(string, string)>, m: map<string, string>)
    requires |pairs| > 0
    requires LastWins(pairs[..|pairs| - 1], m)
    ensures LastWins(pairs, m[pairs[|pairs| - 1].1 := pairs[|pairs| - 1].0])
  {
    var init := pairs[..|pairs| - 1];
    var (id, bc) := pairs[|pairs| - 1];
    var m' := m[bc := id];
    forall b | b in m'
      ensures exists j :: 0 <= j < |pairs| && pairs[j] == (m'[b], b) && forall j' :: j < j' < |pairs| ==> pairs[j'].1 != b
    {
      if b == bc {
        assert pairs[|pairs| - 1] == (m'[b], b);
      } else {
        var j :| 0 <= j < |init| && init[j] == (m[b], b) && forall j' :: j < j' < |init| ==> init[j'].1 != b;
        assert pairs[j] == (m'[b], b);
      }
    }
  }

  /** `get_tagger(id_to_bc, len_linker, len_primer)`: a tagger with
      statistics on, `max_mm == 1`, and the barcodes in first-appearance order. */
  function GetTagger(pairs: seq<(string, string)>, lenLinker: int, lenPrimer: int): (t: Tagger)
    ensures Valid(t)
    ensures t.bcToId == InvertPairs(pairs).1
    ensures forall bc :: bc in t.bcToId ==> bc in BarcodesOf(pairs)
    ensures forall j :: 0 <= j < |pairs| ==> pairs[j].1 in t.bcToId
    ensures t.lenLinker == lenLinker && t.lenPrimer == lenPrimer && t.stats == Some(NoReads)
    ensures t.patterns.Keys !! t.blacklist.Keys
    ensures t.patterns.Keys + t.blacklist.Keys == AllPatterns(InvertPairs(pairs).0)
    ensures t.patterns == GetAllBarcodes(InvertPairs(pairs).0, 1).value.found
    ensures t.blacklist == GetAllBarcodes(InvertPairs(pairs).0, 1).value.blacklist
  {
    var (order, bcToId) := InvertPairs(pairs);
    assert forall j :: 0 <= j < |pairs| ==> BarcodesOf(pairs)[j] in order;
    NewTagger(order, bcToId, lenLinker, lenPrimer, 1, true).value
  }
}
