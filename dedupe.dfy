/** `df.drop_duplicates()`: rows compared over all columns, the first
    occurrence of each full row kept, the kept rows in their original order. */
module Dedupe {
  import opened Tables

  predicate Distinct<T(==, !new)>(s: seq<T>) {
    forall i, j :: 0 <= i < j < |s| ==> s[i] != s[j]
  }

  /** Position `i` of `s` holds the first occurrence of its value. */
  predicate FirstOccurrence<T(==, !new)>(s: seq<T>, i: int) {
    0 <= i < |s| && s[i] !in s[..i]
  }

  /** `s` without repeats: each value at its first position, in order. */
  function Dedup<T(==, !new)>(s: seq<T>): (r: seq<T>)
    ensures |r| <= |s|
    ensures forall x :: x in r <==> x in s
    ensures Distinct(r)
  {
    if s == [] then []
    else
      var p := s[..|s| - 1];
      var d := Dedup(p);
      assert s == p + [s[|s| - 1]];
      if s[|s| - 1] in d then d else d + [s[|s| - 1]]
  }

  /** The positions of `s` that `Dedup` keeps. */
  ghost function KeptPositions<T(!new)>(s: seq<T>): seq<nat> {
    if s == [] then []
    else
      var p := s[..|s| - 1];
      if s[|s| - 1] in p then KeptPositions(p) else KeptPositions(p) + [|s| - 1]
  }

  /** `Dedup(s)` is `s` restricted to the positions holding first occurrences,
      in increasing order: exactly the first occurrences are kept, and their
      relative order is that of `s`. */
  lemma {:induction false} DedupKeepsFirstOccurrences<T(!new)>(s: seq<T>)
    ensures var p := KeptPositions(s);
      && |p| == |Dedup(s)|
      && (forall k :: 0 <= k < |p| ==> p[k] < |s| && Dedup(s)[k] == s[p[k]])
      && (forall k, l :: 0 <= k < l < |p| ==> p[k] < p[l])
      && (forall i :: 0 <= i < |s| ==> (i in p <==> FirstOccurrence(s, i)))
  {
    if s != [] {
      var n := |s| - 1;
      var pre := s[..n];
      DedupKeepsFirstOccurrences(pre);
      var p, d := KeptPositions(pre), Dedup(pre);
      assert s[..n] == pre;
      assert forall i :: 0 <= i < n ==> s[..i] == pre[..i];
      assert forall k :: 0 <= k < |p| ==> p[k] < n;
      assert s[n] in d <==> s[n] in pre;
    }
  }

  /** A sequence without repeats is left as it is. */
  lemma {:induction false} DedupOfDistinct<T(!new)>(s: seq<T>)
    requires Distinct(s)
    ensures Dedup(s) == s
  {
    if s != [] {
      var p := s[..|s| - 1];
      DedupOfDistinct(p);
      assert s[|s| - 1] !in p;
      assert s == p + [s[|s| - 1]];
    }
  }

  /** Deduplicating twice is deduplicating once. */
  lemma DedupIdempotent<T(!new)>(s: seq<T>)
    ensures Dedup(Dedup(s)) == Dedup(s)
  {
    DedupOfDistinct(Dedup(s));
  }

  lemma DedupExample<T(!new)>(a: T, b: T)
    requires a != b
    ensures Dedup([a, b, a]) == [a, b]
  {
    assert [a, b, a][..2] == [a, b];
    assert [a, b][..1] == [a];
    assert [a][..0] == [];
  }

  /** The table after `drop_duplicates`: same columns, deduplicated rows. */
  function DropDuplicates(t: Table): (r: Table)
    requires WellFormed(t)
    ensures WellFormed(r) && r.columns == t.columns
    ensures Distinct(r.rows) && |r.rows| <= |t.rows|
    ensures forall row :: row in r.rows <==> row in t.rows
  {
    var rows := Dedup(t.rows);
    assert forall i :: 0 <= i < |rows| ==> rows[i] in t.rows;
    Table(t.columns, rows)
  }

  lemma DropDuplicatesIdempotent(t: Table)
    requires WellFormed(t)
    ensures DropDuplicates(DropDuplicates(t)) == DropDuplicates(t)
  {
    DedupIdempotent(t.rows);
  }
}
