/** `get_mismatches`: a barcode together with every variant of it that has
    exactly one base substituted by another base of the alphabet. */
module Mismatches {

  /** The alphabet `BASES`. Python iterates the set in an unspecified order;
      the model uses the order in which its literal spells it. */
  const Bases: string := "ATGC"

  /** `BASES - {c}`: the bases a position holding `c` can be substituted by. */
  function OtherBases(c: char): (r: string)
    ensures forall x :: x in r <==> x in Bases && x != c
    ensures forall i, j :: 0 <= i < j < |r| ==> r[i] != r[j]
    ensures |r| == if c in Bases then 3 else 4
  {
    (if c != 'A' then "A" else "") + (if c != 'T' then "T" else "")
    + (if c != 'G' then "G" else "") + (if c != 'C' then "C" else "")
  }

  /** `b` with the character at position `i` replaced by `c`. */
  function Substitute(b: string, i: nat, c: char): (v: string)
    requires i < |b|
    ensures |v| == |b| && v[i] == c
    ensures forall k :: 0 <= k < |b| && k != i ==> v[k] == b[k]
  {
    b[..i] + [c] + b[i + 1..]
  }

  /** `v` is `b` with position `j`, and only position `j`, changed to another base. */
  predicate SubstitutedAt(b: string, v: string, j: int)
  {
    && |v| == |b| && 0 <= j < |b|
    && v[j] != b[j] && v[j] in Bases
    && forall k :: 0 <= k < |b| && k != j ==> v[k] == b[k]
  }

  /** `v` differs from `b` in exactly one position, by a base of the alphabet. */
  predicate OneSubstitution(b: string, v: string)
  {
    exists j :: 0 <= j < |b| && SubstitutedAt(b, v, j)
  }

  /** No value occurs twice in `s`. */
  predicate Distinct<T(==)>(s: seq<T>)
  {
    forall p, q :: 0 <= p < q < |s| ==> s[p] != s[q]
  }

  /** The values yielded by the inner loop for position `i`. */
  function VariantsAt(b: string, i: nat): (r: seq<string>)
    requires i < |b|
    ensures forall v :: v in r ==> SubstitutedAt(b, v, i)
    ensures forall c :: c in Bases && c != b[i] ==> Substitute(b, i, c) in r
    ensures Distinct(r)
    ensures |r| == |OtherBases(b[i])|
  {
    var others := OtherBases(b[i]);
    var r := seq(|others|, k requires 0 <= k < |others| => Substitute(b, i, others[k]));
    assert forall c :: c in others ==> Substitute(b, i, c) in r by {
      forall c | c in others
        ensures Substitute(b, i, c) in r
      {
        var k :| 0 <= k < |others| && others[k] == c;
        assert r[k] == Substitute(b, i, c);
      }
    }
    assert forall p, q :: 0 <= p < q < |r| ==> r[p][i] != r[q][i];
    r
  }

  /** The values yielded by the outer loop from position `i` on. */
  function VariantsFrom(b: string, i: nat): (r: seq<string>)
    requires i <= |b|
    ensures forall v :: v in r ==> exists j :: i <= j < |b| && SubstitutedAt(b, v, j)
    ensures forall j, c :: i <= j < |b| && c in Bases && c != b[j] ==> Substitute(b, j, c) in r
    ensures Distinct(r)
    ensures (forall k :: i <= k < |b| ==> b[k] in Bases) ==> |r| == 3 * (|b| - i)
    decreases |b| - i
  {
    if i == |b| then []
    else
      var here := VariantsAt(b, i);
      var later := VariantsFrom(b, i + 1);
      assert forall v :: v in later ==> v[i] == b[i];
      assert forall v :: v in here ==> v[i] != b[i];
      DistinctConcat(here, later);
      here + later
  }

  /** Two duplicate-free sequences with no common value concatenate to a duplicate-free one. */
  lemma DistinctConcat<T>(a: seq<T>, b: seq<T>)
    requires Distinct(a) && Distinct(b)
    requires forall x :: x in a ==> x !in b
    ensures Distinct(a + b)
  {
    forall p, q | 0 <= p < q < |a + b|
      ensures (a + b)[p] != (a + b)[q]
    {
      if p < |a| && q >= |a| {
        assert (a + b)[p] in a;
        assert (a + b)[q] == b[q - |a|];
      }
    }
  }

  /** What `get_mismatches` yields, and whether it raised after yielding it. */
  datatype Generated = Generated(values: seq<string>, raised: bool)

  /** `get_mismatches(barcode, max_mm=maxMm)`. The barcode itself is always
      yielded first; any `max_mm` other than 1 then raises. */
  function GetMismatches(barcode: string, maxMm: int): (r: Generated)
    ensures |r.values| >= 1 && r.values[0] == barcode
    ensures r.raised <==> maxMm != 1
    ensures r.raised ==> r.values == [barcode]
    ensures !r.raised ==> forall k :: 1 <= k < |r.values| ==> OneSubstitution(barcode, r.values[k])
    ensures !r.raised ==>
      forall j, c :: 0 <= j < |barcode| && c in Bases && c != barcode[j] ==> Substitute(barcode, j, c) in r.values
    ensures Distinct(r.values)
    ensures !r.raised && (forall k :: 0 <= k < |barcode| ==> barcode[k] in Bases) ==> |r.values| == 1 + 3 * |barcode|
  {
    if maxMm != 1 then Generated([barcode], true)
    else
      var variants := VariantsFrom(barcode, 0);
      assert forall k :: 1 <= k < |[barcode] + variants| ==> ([barcode] + variants)[k] == variants[k - 1];
      assert forall v :: v in variants ==> v != barcode && OneSubstitution(barcode, v);
      DistinctConcat([barcode], variants);
      Generated([barcode] + variants, false)
  }

  /** The patterns a barcode contributes to the barcode table. */
  function Patterns(barcode: string): seq<string>
  {
    GetMismatches(barcode, 1).values
  }

  /** Every pattern has its barcode's length, so only equal-length barcodes share patterns. */
  lemma PatternLength(barcode: string, p: string)
    requires p in Patterns(barcode)
    ensures |p| == |barcode|
  {
    var vs := Patterns(barcode);
    var k :| 0 <= k < |vs| && vs[k] == p;
    if k > 0 {
      assert OneSubstitution(barcode, vs[k]);
    }
  }

  /** A pattern other than the barcode itself differs from it in exactly one base. */
  lemma PatternIsVariant(barcode: string, p: string)
    requires p in Patterns(barcode)
    ensures p == barcode || OneSubstitution(barcode, p)
  {
    var vs := Patterns(barcode);
    var k :| 0 <= k < |vs| && vs[k] == p;
    if k > 0 {
      assert OneSubstitution(barcode, vs[k]);
    }
  }
}
