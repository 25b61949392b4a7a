# bartseq read tagger, modelled in Dafny

This project models the read-tagging core of bartseq (`bartseq/read_tagger/__init__.py`) and proves properties of that model. The core does four things:

- It expands every known barcode into its one-substitution neighbourhood over the alphabet A/T/G/C (`get_mismatches`).
- It resolves the neighbourhoods of all barcodes into a table from pattern to barcode. Patterns that more than one barcode occurrence generates go into a blacklist of colliding pairs (`get_all_barcodes`).
- It splits each sequencing read around the first barcode occurrence into junk, barcode, linker and amplicon. It also records whether the matched text differs from the canonical barcode, and the ids of the other barcodes seen (`tag_read`, `search_barcode`).
- It classifies each read with the `TaggedRead` properties and counts the classifications in the tagger's statistics (`PREDS`, `stats`).

The modules follow the parts of the source file:

| module | file | models |
|---|---|---|
| `Optional` | `optional.dfy` | `Option` (a value or `None`) and `Result` (a return value or a raised error) |
| `PySlice` | `py_slice.dfy` | Python slicing (`None`, negative and out-of-range bounds) and string truthiness |
| `Mismatches` | `mismatches.dfy` | `BASES`, `get_mismatches` |
| `BarcodeTable` | `barcode_table.dfy` | `get_all_barcodes` |
| `TaggedReads` | `tagged_read.dfy` | `TaggedRead`, its properties, `cut_seq`, `PREDS`, the statistics counters |
| `ReadTagging` | `read_tagger.dfy` | `ReadTagger.__init__`, `search_barcode`, `tag_read`, `get_tagger` |

Modelling choices:

- The Aho-Corasick automaton is a foreign library. Its output is a parameter: a sequence of hits `(end, barcode)`. The `Searched` precondition requires each hit to be a real occurrence: the read characters ending at `end` form a pattern loaded into the automaton, and that pattern stands for `barcode`.
- Python dicts keep insertion order, and the blacklist pair sets depend on the order in which barcodes are visited. `NewTagger` therefore takes the key order of `bc_to_id` as an explicit sequence. `get_tagger` computes that order: each barcode keeps the place of its first pair.
- `get_mismatches` iterates `BASES - {c}`, a Python set whose iteration order is unspecified. The model fixes it as A, T, G, C. No property proved here depends on that order.
- `raise NotImplemented` inside the generator raises after the barcode has been yielded. The model returns the yielded values together with a `raised` flag. `get_all_barcodes` and `ReadTagger.__init__` turn that flag into a `Failure`.
- A tagger's statistics are threaded through `TagRead` as a value: the call returns the tagged read and the updated tagger.

## Model

| member | source | states |
|---|---|---|
| Mismatches.OtherBases | bartseq/read_tagger/__init__.py:95 | `BASES - {c}` holds exactly the bases other than `c`, each once: three of them when `c` is a base, four otherwise |
| Mismatches.VariantsFrom | bartseq/read_tagger/__init__.py:94-96 | the outer loop from position `i` yields only one-base substitutions at positions `>= i`, yields every such substitution, yields no value twice, and yields 3 per position for an all-ATGC barcode |
| Mismatches.GetMismatches | bartseq/read_tagger/__init__.py:89-96 | the barcode is yielded first; any `max_mm` other than 1 raises right after it; otherwise every later value differs from the barcode in exactly one position, by a base from A/T/G/C; every such variant is yielded; no value repeats; an all-ATGC barcode of length n yields 1+3n values |
| Mismatches.PatternLength | bartseq/read_tagger/__init__.py:94-96 | every pattern has its barcode's length |
| Mismatches.PatternIsVariant | bartseq/read_tagger/__init__.py:90-96 | every pattern is the barcode itself or differs from it in exactly one position |
| BarcodeTable.GetAllBarcodes | bartseq/read_tagger/__init__.py:99-124 | with `max_mm == 1` the call succeeds; otherwise it raises exactly when there is at least one barcode; the keys of `found` and `blacklist` are disjoint |
| BarcodeTable.ScanOutcome | bartseq/read_tagger/__init__.py:107-108 | the loop over the barcodes never raises with `max_mm == 1`, and raises on the first barcode otherwise |
| BarcodeTable.GeneratorsExact | bartseq/read_tagger/__init__.py:107-108 | the reference list of a pattern's generators holds exactly the input barcodes whose neighbourhood contains the pattern |
| BarcodeTable.VisitAllEntry | bartseq/read_tagger/__init__.py:108-119 | the inner loop over one barcode's distinct patterns changes each pattern's entries once, and leaves every other pattern's entries alone |
| BarcodeTable.ScanEntry | bartseq/read_tagger/__init__.py:107-119 | seen from one pattern, the loop over the barcodes is the collision step applied to that pattern's generators, in input order |
| BarcodeTable.RunNonEmpty | bartseq/read_tagger/__init__.py:109-119 | for a non-empty pattern, `found` ends at the last generator, and the blacklist entry holds exactly the pairs of generators adjacent in input order, in both orders |
| BarcodeTable.RunEmpty | bartseq/read_tagger/__init__.py:109-110 | for the empty pattern every previous barcode is the empty string, which is falsy, so the blacklist never changes |
| BarcodeTable.ScannedFound | bartseq/read_tagger/__init__.py:104-119 | after the loop, a pattern is in `found` exactly when some barcode generated it, and it maps to the last such barcode |
| BarcodeTable.ScannedBlacklist | bartseq/read_tagger/__init__.py:104-119 | after the loop, a pattern is blacklisted exactly when it is non-empty and has two or more generators, and its entry holds the adjacent generator pairs |
| BarcodeTable.GetAllBarcodesCoversPatterns | bartseq/read_tagger/__init__.py:104-124 | the keys of `found` and `blacklist` are disjoint, and together they are every pattern generated from any input barcode |
| BarcodeTable.FoundEntry | bartseq/read_tagger/__init__.py:109-122 | for one pattern: it stays in `found` exactly when one occurrence generated it, or it is empty and any occurrence did; it maps to the barcode that generated it |
| BarcodeTable.GetAllBarcodesUnique | bartseq/read_tagger/__init__.py:109-122 | a pattern stays in `found` exactly when a single input occurrence generated it (or, being empty, any occurrence did); it maps to every barcode that generates it; that barcode is an input barcode whose neighbourhood contains the pattern |
| BarcodeTable.GetAllBarcodesBlacklist | bartseq/read_tagger/__init__.py:109-124 | the empty pattern is never blacklisted; a pattern is blacklisted exactly when it is non-empty and two or more occurrences generate it; every blacklist set is symmetric and holds exactly the generator pairs adjacent in input order |
| BarcodeTable.BlacklistPairsOnlyNeighbours | bartseq/read_tagger/__init__.py:109-113 | with three distinct generators a, b, c, the blacklist pairs a with b and b with c, but never a with c |
| TaggedReads.CutSeq | bartseq/read_tagger/__init__.py:58-61 | the result is never longer than the amplicon; it is the piece of `seq` of the amplicon's length starting at `len(junk or "") + len(barcode or "")`, a prefix of what follows that offset, exactly all of it when the amplicon's length runs past the end of `seq`, and empty when the offset is past the end |
| TaggedReads.Record | bartseq/read_tagger/__init__.py:188-191 | each counter rises by one exactly when its `PREDS` predicate holds of the read; unless the barcode id is the empty string, the "no barcode", "only primer" and "regular" counters together rise by exactly one |
| TaggedReads.RecordStep | bartseq/read_tagger/__init__.py:79-86 | recording a read raises each counter by 0 or 1; a read with no junk and no other barcodes leaves the "junk" and "multiple barcodes" counters alone |
| TaggedReads.ClassifiedOnce | bartseq/read_tagger/__init__.py:50-56 | unless the barcode id is the empty string, exactly one of "no barcode", "only primer" and "regular" holds of a read |
| TaggedReads.EmptyIdCountedTwice | bartseq/read_tagger/__init__.py:79-86 | with an empty barcode id and a short amplicon, a read is both "no barcode" and "only primer", so it is counted twice |
| ReadTagging.FoundIsValid | bartseq/read_tagger/__init__.py:150-152 | every pattern loaded into the automaton stands for one of the dict's barcodes, has that barcode's length, and lies in that barcode's neighbourhood |
| ReadTagging.NewTagger | bartseq/read_tagger/__init__.py:128-153 | with `max_mm == 1` construction succeeds; otherwise it fails exactly when there is a barcode; the statistics start at zero, or are off; the patterns loaded into the automaton are exactly `get_all_barcodes`' `found` over the dict's keys, and the blacklist is its blacklist; the two are disjoint and together cover every generated pattern; every loaded pattern stands for a known barcode of its own length and is that barcode or a one-base variant of it |
| ReadTagging.SearchBarcode | bartseq/read_tagger/__init__.py:155-158 | one span per hit, in order: it starts `len(barcode) - 1` before the hit's end and ends one past it; for real occurrences it lies inside the read, and the read text in it is a loaded pattern standing for the hit's barcode |
| ReadTagging.MatchedAt | bartseq/read_tagger/__init__.py:150-158 | the read text under a real occurrence is the hit's barcode or a one-base variant of it |
| ReadTagging.MatchedVariant | bartseq/read_tagger/__init__.py:163-176 | the text of the first match, the one the read is split around, is the barcode or a one-base variant of it |
| ReadTagging.Dedup | bartseq/read_tagger/__init__.py:161-162 | the `OrderedDict` keeps exactly the values of the input, each once, with the first value first |
| ReadTagging.DedupOrder | bartseq/read_tagger/__init__.py:161-162 | the `OrderedDict` lists values in the order of their first occurrence |
| ReadTagging.DedupIds | bartseq/read_tagger/__init__.py:164-168 | after dropping duplicate spans, the first span is the first hit's, and the ids of the remaining spans, less the chosen id, are the ids of all hits less the chosen id |
| ReadTagging.OtherIds | bartseq/read_tagger/__init__.py:164-168 | `DedupIds` applied to the spans `search_barcode` reports for real occurrences |
| ReadTagging.SplitAround | bartseq/read_tagger/__init__.py:171-175 | the junk, the matched text, the linker slice and the amplicon slice concatenate back to the read; the linker is at most `len_linker` long, exactly that long when the read extends that far, and otherwise the rest of the read, with an empty amplicon after it |
| ReadTagging.SplitSegments | bartseq/read_tagger/__init__.py:165-186 | with a match: the span lies in the read; the barcode is the first hit's id; junk is absent exactly when the span starts the read, and is otherwise the read before the span; the mismatch flag is set exactly when the matched text differs from the canonical barcode; for `len_linker >= 0` the four segments concatenate to the read, and the linker is at most `len_linker` long, exactly that long when the read extends that far; otherwise the linker is the rest of the read and the amplicon is empty |
| ReadTagging.SplitOthers | bartseq/read_tagger/__init__.py:164-168 | `other_barcodes` is the ids of all hits less the chosen one; `has_multiple_barcodes` holds exactly when some hit has another id |
| ReadTagging.OtherHitIds | bartseq/read_tagger/__init__.py:47-48 | the ids of all hits less the chosen one are non-empty exactly when some hit has an id other than the chosen one |
| ReadTagging.SplitFacts | bartseq/read_tagger/__init__.py:160-186 | the `TaggedRead` built from the deduplicated spans, with and without a match, as `TagRead` states it |
| ReadTagging.TagRead | bartseq/read_tagger/__init__.py:160-193 | only the statistics change, by recording this read; with no match there is no barcode, junk or linker, the amplicon is the whole read, and there is no mismatch and no other barcode; with a match, `SplitSegments`' partition (`CutAround`: the junk is the read before the span, the id is the first hit's, the four pieces concatenate back to the read, and a read ending before a full linker has the rest as linker and an empty amplicon); the matched text is a pattern of the first hit's barcode, and when flagged as a mismatch it differs from the barcode in exactly one position; `other_barcodes` never holds the chosen id; `has_multiple_barcodes` holds exactly when some hit has another id; each counter rises by 0 or 1; "junk" and "multiple barcodes" stay put with no match; with non-empty ids the three classifying counters together rise by one |
| ReadTagging.StatsConservation | bartseq/read_tagger/__init__.py:188-191 | over a stream of reads, no counter rises by more than the number of reads; with non-empty ids, "no barcode" + "only primer" + "regular" rises by exactly the number of reads |
| ReadTagging.ShortCut | bartseq/read_tagger/__init__.py:171-175 | a read cut around an occurrence that ends before a full `len_linker` has the rest of the read as its linker and an empty amplicon |
| ReadTagging.ShortReadOnlyPrimer | bartseq/read_tagger/__init__.py:50-52 | such a read, tagged, has an empty amplicon and so counts as "only primer" for any non-negative `len_primer` |
| ReadTagging.CutSeqOfRead | bartseq/read_tagger/__init__.py:58-61 | `cut_seq` of the read returns the amplicon when the read holds a full `len_linker` after the barcode and the id is as long as the barcode and the linker together |
| ReadTagging.CutSeqOfCut | bartseq/read_tagger/__init__.py:58-61 | for any read cut around an occurrence with a full linker, an id as long as the barcode and the linker makes `cut_seq` return the amplicon |
| ReadTagging.CutSeqMisaligned | bartseq/read_tagger/__init__.py:58-61 | with id `x` for barcode `AC`, no linker and the read `ACGT`, the amplicon is `GT`, but `cut_seq` of the read is `CG` |
| ReadTagging.InvertPairs | bartseq/read_tagger/__init__.py:225 | `{bc: id_ for id_, bc in id_to_bc}` maps each barcode to the id of its last pair; its key order lists each barcode once, at its first pair |
| ReadTagging.GetTagger | bartseq/read_tagger/__init__.py:220-226 | the tagger's dict is the inverted pairs; every barcode of a pair is a key, and every key is a barcode of some pair; statistics are on and start at zero; the loaded patterns and the blacklist are `get_all_barcodes`' `found` and blacklist over the barcodes in first-pair order, disjoint and covering every generated pattern |

## Left out

- The Aho-Corasick automaton's construction and iteration (lines 149-158) is a foreign library. Its hits are a parameter, and each hit must be a real occurrence of a loaded pattern.
- ReadTagging.TagRead: the hits need not list every occurrence, or list them in the automaton's order. The properties hold for any sequence of real occurrences, so they also hold for the automaton's.
- ReadTagging.TagRead: the partition of the read is stated only for `len_linker >= 0`. With a negative `len_linker`, Python's slices overlap and the segments do not concatenate back to the read.
- The `warn(...)` call in `get_all_barcodes` (line 114) is a side effect with no effect on the result.
- `get_barcode_table` and `HTML_INTRO` (lines 14-32, 195-217) are pandas and HTML rendering.
- `TaggedRead.__str__` (lines 63-76) is display formatting.
- The `defaults` module is not part of this model. `GetTagger` takes `len_linker` and `len_primer` as parameters.
- Mismatches.GetMismatches: the exception is one error value. The model does not distinguish the `TypeError` that `raise NotImplemented` raises in Python 3.
- The iteration order of `BASES - {c}` is fixed as A, T, G, C. Python leaves it unspecified.
- ReadTagging.NewTagger: `bc_to_id`'s key order is an explicit parameter, because the model's maps are unordered.
- The pipeline's counting, aggregation, file and plot logic is not part of this model.
