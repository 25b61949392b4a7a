/** `get_all_barcodes`: the table from every one-substitution pattern to the
    barcode it came from, with the patterns that more than one barcode
    occurrence generates moved into a blacklist of colliding barcode pairs. */
module BarcodeTable {
  import opened Optional
  import opened Mismatches

  type Pair = (string, string)

  /** `get_mismatches` raises for any `max_mm` other than 1. */
  datatype Error = MaxMismatchUnsupported

  /** The two dictionaries `found` (pattern to barcode) and `blacklist`
      (pattern to the set of colliding barcode pairs). */
  datatype Tables = Tables(found: map<string, string>, blacklist: map<string, set<Pair>>)

  const NoTables := Tables(map[], map[])

  /** One pass of the inner loop body: `barcode` has generated `pattern`.
      The collision test is Python truthiness, so an empty previous barcode
      never counts as a collision. */
  function Visit(t: Tables, pattern: string, barcode: string): Tables
  {
    if pattern in t.found && t.found[pattern] != "" then
      var previous := t.found[pattern];
      var item := if pattern in t.blacklist then t.blacklist[pattern] else {};
      Tables(t.found[pattern := barcode],
             t.blacklist[pattern := item + {(previous, barcode), (barcode, previous)}])
    else
      Tables(t.found[pattern := barcode], t.blacklist)
  }

  /** The inner loop over the patterns of one barcode. */
  function VisitAll(t: Tables, patterns: seq<string>, barcode: string): Tables
    decreases |patterns|
  {
    if |patterns| == 0 then t
    else VisitAll(Visit(t, patterns[0], barcode), patterns[1..], barcode)
  }

  /** The outer loop over the barcodes; the generator's exception propagates. */
  function Scan(t: Tables, barcodes: seq<string>, maxMm: int): Result<Tables, Error>
    decreases |barcodes|
  {
    if |barcodes| == 0 then Success(t)
    else
      var generated := GetMismatches(barcodes[0], maxMm);
      var t' := VisitAll(t, generated.values, barcodes[0]);
      if generated.raised then Failure(MaxMismatchUnsupported)
      else Scan(t', barcodes[1..], maxMm)
  }

  /** `get_all_barcodes(barcodes, max_mm=maxMm)`: the scan, then every
      blacklisted pattern deleted from `found`. */
  function GetAllBarcodes(barcodes: seq<string>, maxMm: int): (r: Result<Tables, Error>)
    ensures maxMm == 1 ==> r.Success?
    ensures maxMm != 1 ==> (r.Failure? <==> |barcodes| > 0)
    ensures r.Success? ==> r.value.found.Keys !! r.value.blacklist.Keys
  {
    ScanOutcome(NoTables, barcodes, maxMm);
    match Scan(NoTables, barcodes, maxMm)
    case Failure(e) => Failure(e)
    case Success(t) => Success(Tables(t.found - t.blacklist.Keys, t.blacklist))
  }

  /** With `max_mm == 1` the scan never raises; otherwise it raises on the first barcode. */
  lemma {:induction false} ScanOutcome(t: Tables, barcodes: seq<string>, maxMm: int)
    ensures maxMm == 1 ==> Scan(t, barcodes, maxMm).Success?
    ensures maxMm != 1 ==> (Scan(t, barcodes, maxMm).Failure? <==> |barcodes| > 0)
    decreases |barcodes|
  {
    if |barcodes| > 0 && maxMm == 1 {
      ScanOutcome(VisitAll(t, Patterns(barcodes[0]), barcodes[0]), barcodes[1..], maxMm);
    }
  }

  // ---------------------------------------------------------------------
  // Reference definitions: which input occurrences generate a pattern.

  /** The input barcode occurrences that generate `p`, in input order. */
  function Generators(barcodes: seq<string>, p: string): seq<string>
    decreases |barcodes|
  {
    if |barcodes| == 0 then []
    else (if p in Patterns(barcodes[0]) then [barcodes[0]] else []) + Generators(barcodes[1..], p)
  }

  /** The generators of `p` are exactly the input barcodes that generate it. */
  lemma {:induction false} GeneratorsExact(barcodes: seq<string>, p: string)
    ensures forall b :: b in Generators(barcodes, p) ==> b in barcodes && p in Patterns(b)
    ensures forall i :: 0 <= i < |barcodes| && p in Patterns(barcodes[i]) ==> barcodes[i] in Generators(barcodes, p)
    decreases |barcodes|
  {
    if |barcodes| > 0 {
      GeneratorsExact(barcodes[1..], p);
      forall i | 1 <= i < |barcodes|
        ensures barcodes[i] == barcodes[1..][i - 1]
      {
      }
      assert forall b :: b in barcodes[1..] ==> b in barcodes;
    }
  }

  /** Every pattern generated from some input barcode. */
  function AllPatterns(barcodes: seq<string>): set<string>
  {
    set i, p | 0 <= i < |barcodes| && p in Patterns(barcodes[i]) :: p
  }

  /** `a` and `b` are adjacent, in either order, somewhere in `c`. */
  ghost predicate Linked(c: seq<string>, a: string, b: string)
  {
    exists j :: 0 <= j < |c| - 1 && ((c[j] == a && c[j + 1] == b) || (c[j] == b && c[j + 1] == a))
  }

  // ---------------------------------------------------------------------
  // The scan seen one pattern at a time.

  /** What the two dictionaries hold for one pattern. */
  datatype Entry = Entry(found: Option<string>, listed: Option<set<Pair>>)

  function EntryOf(t: Tables, p: string): Entry
  {
    Entry(if p in t.found then Some(t.found[p]) else None,
          if p in t.blacklist then Some(t.blacklist[p]) else None)
  }

  /** `Visit`'s effect on the entry of the pattern it visits. */
  function Step(e: Entry, barcode: string): Entry
  {
    if e.found.Some? && e.found.value != "" then
      Entry(Some(barcode), Some(e.listed.ValueOr({}) + {(e.found.value, barcode), (barcode, e.found.value)}))
    else
      Entry(Some(barcode), e.listed)
  }

  /** `Step` applied for each of `hs` in turn. */
  function Run(e: Entry, hs: seq<string>): Entry
    decreases |hs|
  {
    if |hs| == 0 then e else Run(Step(e, hs[0]), hs[1..])
  }

  /** The previously recorded barcode, as a sequence of length 0 or 1. */
  function Prior(e: Entry): seq<string>
  {
    if e.found.Some? then [e.found.value] else []
  }

  /** `Visit` changes the entries of the visited pattern only, by one `Step`. */
  lemma VisitEntry(t: Tables, p: string, b: string, q: string)
    ensures EntryOf(Visit(t, p, b), q) == if q == p then Step(EntryOf(t, p), b) else EntryOf(t, q)
  {
  }

  /** The inner loop touches each of its (distinct) patterns exactly once. */
  lemma {:induction false} VisitAllEntry(t: Tables, patterns: seq<string>, b: string, q: string)
    requires Distinct(patterns)
    ensures EntryOf(VisitAll(t, patterns, b), q)
         == if q in patterns then Step(EntryOf(t, q), b) else EntryOf(t, q)
    decreases |patterns|
  {
    if |patterns| > 0 {
      var t1 := Visit(t, patterns[0], b);
      assert Distinct(patterns[1..]);
      VisitAllEntry(t1, patterns[1..], b, q);
      VisitEntry(t, patterns[0], b, q);
      assert q in patterns <==> q == patterns[0] || q in patterns[1..];
      if q == patterns[0] {
        assert q !in patterns[1..];
      }
    }
  }

  /** The whole scan, seen from one pattern: its entry is the generators' steps. */
  lemma {:induction false} ScanEntry(t: Tables, barcodes: seq<string>, q: string)
    ensures Scan(t, barcodes, 1).Success?
    ensures EntryOf(Scan(t, barcodes, 1).value, q) == Run(EntryOf(t, q), Generators(barcodes, q))
    decreases |barcodes|
  {
    if |barcodes| > 0 {
      var b := barcodes[0];
      var t1 := VisitAll(t, Patterns(b), b);
      VisitAllEntry(t, Patterns(b), b, q);
      ScanEntry(t1, barcodes[1..], q);
      var rest := Generators(barcodes[1..], q);
      if q in Patterns(b) {
        assert Generators(barcodes, q) == [b] + rest;
        assert ([b] + rest)[1..] == rest;
      } else {
        assert Generators(barcodes, q) == rest;
      }
    }
  }

  /** Adjacency in `[x] + c`: either at the front, or inside `c`. */
  lemma LinkedCons(x: string, c: seq<string>, a: string, b: string)
    ensures Linked([x] + c, a, b)
        <==> (|c| > 0 && ((x == a && c[0] == b) || (x == b && c[0] == a))) || Linked(c, a, b)
  {
    var xc := [x] + c;
    if Linked(xc, a, b) {
      var j :| 0 <= j < |xc| - 1 && ((xc[j] == a && xc[j + 1] == b) || (xc[j] == b && xc[j + 1] == a));
      if j > 0 {
        assert c[j - 1] == xc[j] && c[j] == xc[j + 1];
      }
    }
    if Linked(c, a, b) {
      var j :| 0 <= j < |c| - 1 && ((c[j] == a && c[j + 1] == b) || (c[j] == b && c[j + 1] == a));
      assert xc[j + 1] == c[j] && xc[j + 2] == c[j + 1];
    }
    if |c| > 0 && ((x == a && c[0] == b) || (x == b && c[0] == a)) {
      assert xc[0] == x && xc[1] == c[0];
    }
  }

  /** For a non-empty pattern every generator is non-empty, so each
      generator after the first records a collision with its predecessor. */
  lemma {:induction false} RunNonEmpty(e: Entry, hs: seq<string>)
    requires forall h :: h in hs ==> h != ""
    requires e.found.Some? ==> e.found.value != ""
    ensures Run(e, hs).found == if |hs| == 0 then e.found else Some(hs[|hs| - 1])
    ensures Run(e, hs).listed.Some? <==> e.listed.Some? || |Prior(e) + hs| >= 2
    ensures forall pr: Pair :: pr in Run(e, hs).listed.ValueOr({})
                           <==> pr in e.listed.ValueOr({}) || Linked(Prior(e) + hs, pr.0, pr.1)
    decreases |hs|
  {
    if |hs| > 0 {
      var h := hs[0];
      var e1 := Step(e, h);
      assert hs[0] in hs && forall x :: x in hs[1..] ==> x in hs;
      RunNonEmpty(e1, hs[1..]);
      assert Prior(e1) + hs[1..] == hs;
      forall pr: Pair
        ensures pr in Run(e, hs).listed.ValueOr({})
            <==> pr in e.listed.ValueOr({}) || Linked(Prior(e) + hs, pr.0, pr.1)
      {
        if e.found.Some? {
          assert Prior(e) + hs == [e.found.value] + hs;
          LinkedCons(e.found.value, hs, pr.0, pr.1);
        } else {
          assert Prior(e) + hs == hs;
        }
      }
    }
  }

  /** For the empty pattern every generator is empty, and nothing is ever blacklisted. */
  lemma {:induction false} RunEmpty(e: Entry, hs: seq<string>)
    requires forall h :: h in hs ==> h == ""
    requires e.found.Some? ==> e.found.value == ""
    ensures Run(e, hs).listed == e.listed
    ensures Run(e, hs).found == if |hs| == 0 then e.found else Some("")
    decreases |hs|
  {
    if |hs| > 0 {
      assert hs[0] in hs && forall x :: x in hs[1..] ==> x in hs;
      RunEmpty(Step(e, hs[0]), hs[1..]);
    }
  }

  /** The steps of a pattern's generators from an empty entry. */
  lemma RunFresh(g: seq<string>, p: string)
    requires forall b :: b in g ==> |b| == |p|
    ensures var e := Run(Entry(None, None), g);
      && (e.found.Some? <==> |g| > 0)
      && (e.found.Some? ==> e.found.value == g[|g| - 1])
      && (e.listed.Some? <==> p != "" && |g| >= 2)
      && (e.listed.Some? ==> forall pr: Pair :: pr in e.listed.value <==> Linked(g, pr.0, pr.1))
  {
    var e0 := Entry(None, None);
    if p == "" {
      RunEmpty(e0, g);
    } else {
      RunNonEmpty(e0, g);
      assert Prior(e0) + g == g;
    }
  }

  /** The `found` dictionary after the scan, for one pattern: its last generator. */
  lemma ScannedFound(barcodes: seq<string>, p: string)
    ensures Scan(NoTables, barcodes, 1).Success?
    ensures p in Scan(NoTables, barcodes, 1).value.found <==> |Generators(barcodes, p)| > 0
    ensures p in Scan(NoTables, barcodes, 1).value.found ==>
      Scan(NoTables, barcodes, 1).value.found[p] == Generators(barcodes, p)[|Generators(barcodes, p)| - 1]
  {
    ScannedRun(barcodes, p);
    FreshEntry(Scan(NoTables, barcodes, 1).value, p, Generators(barcodes, p));
  }

  /** The blacklist after the scan, for one non-empty pattern with two or
      more generators: the pairs adjacent among its generators. */
  lemma ScannedBlacklist(barcodes: seq<string>, p: string)
    ensures Scan(NoTables, barcodes, 1).Success?
    ensures p in Scan(NoTables, barcodes, 1).value.blacklist <==> p != "" && |Generators(barcodes, p)| >= 2
    ensures p in Scan(NoTables, barcodes, 1).value.blacklist ==> forall pr: Pair ::
      pr in Scan(NoTables, barcodes, 1).value.blacklist[p] <==> Linked(Generators(barcodes, p), pr.0, pr.1)
  {
    ScannedRun(barcodes, p);
    FreshEntry(Scan(NoTables, barcodes, 1).value, p, Generators(barcodes, p));
  }

  /** The scan's entry for `p` is its generators' steps from an empty entry. */
  lemma ScannedRun(barcodes: seq<string>, p: string)
    ensures Scan(NoTables, barcodes, 1).Success?
    ensures forall b :: b in Generators(barcodes, p) ==> |b| == |p|
    ensures EntryOf(Scan(NoTables, barcodes, 1).value, p) == Run(Entry(None, None), Generators(barcodes, p))
  {
    ScanEntry(NoTables, barcodes, p);
    assert EntryOf(NoTables, p) == Entry(None, None);
    GeneratorsLength(barcodes, p);
  }

  /** The dictionaries for `p` when its entry is the generators' steps from an empty entry. */
  lemma FreshEntry(t: Tables, p: string, g: seq<string>)
    requires forall b :: b in g ==> |b| == |p|
    requires EntryOf(t, p) == Run(Entry(None, None), g)
    ensures p in t.found <==> |g| > 0
    ensures p in t.found ==> t.found[p] == g[|g| - 1]
    ensures p in t.blacklist <==> p != "" && |g| >= 2
    ensures p in t.blacklist ==> forall pr: Pair :: pr in t.blacklist[p] <==> Linked(g, pr.0, pr.1)
  {
    RunFresh(g, p);
  }

  /** Every generator of a pattern is as long as the pattern. */
  lemma GeneratorsLength(barcodes: seq<string>, p: string)
    ensures forall b :: b in Generators(barcodes, p) ==> |b| == |p|
  {
    GeneratorsExact(barcodes, p);
    forall b | b in Generators(barcodes, p)
      ensures |b| == |p|
    {
      PatternLength(b, p);
    }
  }

  // ---------------------------------------------------------------------
  // The properties of the result.

  /** The keys of `found` and `blacklist` are disjoint and together are
      every pattern generated from any input barcode. */
  lemma GetAllBarcodesCoversPatterns(barcodes: seq<string>)
    ensures var r := GetAllBarcodes(barcodes, 1);
      && r.Success?
      && r.value.found.Keys !! r.value.blacklist.Keys
      && r.value.found.Keys + r.value.blacklist.Keys == AllPatterns(barcodes)
  {
    var r := GetAllBarcodes(barcodes, 1).value;
    forall p
      ensures p in r.found.Keys + r.blacklist.Keys <==> p in AllPatterns(barcodes)
    {
      ScannedFound(barcodes, p);
      ScannedBlacklist(barcodes, p);
      GeneratorsExact(barcodes, p);
      var g := Generators(barcodes, p);
      if p in AllPatterns(barcodes) {
        var i :| 0 <= i < |barcodes| && p in Patterns(barcodes[i]);
        assert barcodes[i] in g;
      }
      if |g| > 0 {
        assert g[0] in g;
        var i :| 0 <= i < |barcodes| && barcodes[i] == g[0];
      }
    }
  }

  /** The `found` entry of one pattern once the blacklisted patterns are deleted. */
  lemma FoundEntry(barcodes: seq<string>, p: string)
    ensures var r := GetAllBarcodes(barcodes, 1); var g := Generators(barcodes, p);
      && r.Success?
      && (p in r.value.found <==> |g| == 1 || (p == "" && |g| >= 1))
      && (p in r.value.found ==> r.value.found[p] in g && forall b :: b in g ==> b == r.value.found[p])
  {
    ScannedFound(barcodes, p);
    ScannedBlacklist(barcodes, p);
    var r := GetAllBarcodes(barcodes, 1).value;
    var g := Generators(barcodes, p);
    if p in r.found {
      var last := g[|g| - 1];
      assert last in g;
      forall b | b in g
        ensures b == last
      {
        if p == "" {
          GeneratorsExact(barcodes, p);
          PatternLength(b, p);
          PatternLength(last, p);
        } else {
          var k :| 0 <= k < |g| && g[k] == b;
        }
      }
    }
  }

  /** A pattern stays in `found` exactly when a single input occurrence
      generated it (or, being empty, when any did), and it maps to that barcode. */
  lemma GetAllBarcodesUnique(barcodes: seq<string>)
    ensures var r := GetAllBarcodes(barcodes, 1);
      && r.Success?
      && (forall p :: p in r.value.found
            <==> |Generators(barcodes, p)| == 1 || (p == "" && |Generators(barcodes, p)| >= 1))
      && (forall p, i :: p in r.value.found && 0 <= i < |barcodes| && p in Patterns(barcodes[i])
            ==> r.value.found[p] == barcodes[i])
      && (forall p :: p in r.value.found ==> r.value.found[p] in barcodes && p in Patterns(r.value.found[p]))
  {
    var r := GetAllBarcodes(barcodes, 1).value;
    forall p
      ensures p in r.found <==> |Generators(barcodes, p)| == 1 || (p == "" && |Generators(barcodes, p)| >= 1)
      ensures p in r.found ==> r.found[p] in Generators(barcodes, p)
      ensures p in r.found ==> forall b :: b in Generators(barcodes, p) ==> b == r.found[p]
    {
      FoundEntry(barcodes, p);
    }
    forall p | p in r.found
      ensures r.found[p] in barcodes && p in Patterns(r.found[p])
    {
      GeneratorsExact(barcodes, p);
    }
    forall p, i | p in r.found && 0 <= i < |barcodes| && p in Patterns(barcodes[i])
      ensures r.found[p] == barcodes[i]
    {
      GeneratorsExact(barcodes, p);
      assert barcodes[i] in Generators(barcodes, p);
    }
  }

  /** Every blacklist entry is symmetric, holds exactly the pairs of
      generators adjacent in input order, and the empty pattern is never
      blacklisted. */
  lemma GetAllBarcodesBlacklist(barcodes: seq<string>)
    ensures var r := GetAllBarcodes(barcodes, 1);
      && r.Success?
      && "" !in r.value.blacklist
      && (forall p :: p in r.value.blacklist <==> |Generators(barcodes, p)| >= 2 && p != "")
      && (forall p, a, b :: p in r.value.blacklist ==> ((a, b) in r.value.blacklist[p] <==> (b, a) in r.value.blacklist[p]))
      && (forall p, pr: Pair :: p in r.value.blacklist ==>
            (pr in r.value.blacklist[p] <==> Linked(Generators(barcodes, p), pr.0, pr.1)))
  {
    var r := GetAllBarcodes(barcodes, 1).value;
    forall p
      ensures p in r.blacklist <==> |Generators(barcodes, p)| >= 2 && p != ""
      ensures p in r.blacklist ==> forall pr: Pair :: pr in r.blacklist[p] <==> Linked(Generators(barcodes, p), pr.0, pr.1)
    {
      ScannedBlacklist(barcodes, p);
    }
    forall p, a, b | p in r.blacklist
      ensures (a, b) in r.blacklist[p] <==> (b, a) in r.blacklist[p]
    {
      var g := Generators(barcodes, p);
      assert (a, b) in r.blacklist[p] <==> Linked(g, a, b);
      assert (b, a) in r.blacklist[p] <==> Linked(g, b, a);
    }
  }

  /** When three distinct barcode occurrences generate a pattern, its
      blacklist entry pairs each with the one before it in input order, but
      never the first with the last. */
  lemma BlacklistPairsOnlyNeighbours(barcodes: seq<string>, p: string, a: string, b: string, c: string)
    requires Generators(barcodes, p) == [a, b, c]
    requires a != b && b != c && a != c
    ensures var r := GetAllBarcodes(barcodes, 1);
      && r.Success? && p in r.value.blacklist
      && (a, b) in r.value.blacklist[p] && (c, b) in r.value.blacklist[p]
      && (a, c) !in r.value.blacklist[p] && (c, a) !in r.value.blacklist[p]
  {
    var g := Generators(barcodes, p);
    assert g[0] == a && g[1] == b && g[2] == c;
    if p == "" {
      GeneratorsExact(barcodes, p);
      assert a in g && b in g;
      PatternLength(a, p);
      PatternLength(b, p);
    }
    ScannedBlacklist(barcodes, p);
    var bl := Scan(NoTables, barcodes, 1).value.blacklist;
    assert GetAllBarcodes(barcodes, 1).value.blacklist == bl;
    assert p in bl;
    assert Linked(g, a, b);
    assert Linked(g, c, b) by { assert g[1] == b && g[2] == c; }
    EndsNotLinked(a, b, c);
    assert (a, b) in bl[p] && (c, b) in bl[p];
    assert (a, c) !in bl[p] && (c, a) !in bl[p];
  }

  /** In `[a, b, c]` with neighbours distinct, `a` and `c` are not adjacent. */
  lemma EndsNotLinked(a: string, b: string, c: string)
    requires a != b && b != c
    ensures !Linked([a, b, c], a, c) && !Linked([a, b, c], c, a)
  {
    var g := [a, b, c];
    forall j | 0 <= j < |g| - 1
      ensures !((g[j] == a && g[j + 1] == c) || (g[j] == c && g[j + 1] == a))
    {
      assert j == 0 || j == 1;
    }
  }
}
