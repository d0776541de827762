/** search_corpus: the older flat search over the entries of corpus.json,
    keeping each entry whose title or one of its three texts contains the
    lowered query. Reading the JSON file is not modelled: the entries are a
    parameter. */
module CorpusSearch {
  import opened Text

  /** One corpus.json entry; a missing or null field reads as "" (the
      source's `entry.get(k, '') or ''`). */
  datatype Entry = Entry(id: string, title: string, text1: string, text2: string, text3: string, history: string)

  function Texts(e: Entry): seq<string> {
    [e.text1, e.text2, e.text3]
  }

  /** The entry is kept for the lowered query q. */
  predicate Keeps(e: Entry, q: string) {
    Contains(Lower(e.title), q) || exists j :: 0 <= j < 3 && Contains(Lower(Texts(e)[j]), q)
  }

  function Filtered(entries: seq<Entry>, q: string): seq<Entry> {
    if entries == [] then []
    else Filtered(entries[..|entries| - 1], q)
         + (if Keeps(entries[|entries| - 1], q) then [entries[|entries| - 1]] else [])
  }

  /** search_corpus(query) over the given entries. */
  function SearchCorpusSpec(entries: seq<Entry>, query: string): seq<Entry> {
    if query == [] then entries else Filtered(entries, Lower(query))
  }

  lemma FilteredSnoc(entries: seq<Entry>, i: nat, q: string)
    requires i < |entries|
    ensures Filtered(entries[..i + 1], q)
            == Filtered(entries[..i], q) + (if Keeps(entries[i], q) then [entries[i]] else [])
  {
    assert entries[..i + 1][..i] == entries[..i];
  }

  /** The loop over the entries; the inner loop over text_1..text_3 stops
      at the first text that holds the query. */
  method SearchCorpus(entries: seq<Entry>, query: string) returns (results: seq<Entry>)
    ensures results == SearchCorpusSpec(entries, query)
  {
    if query == [] {
      return entries;
    }
    var q := Lower(query);
    results := [];
    var i := 0;
    while i < |entries|
      invariant i <= |entries|
      invariant results == Filtered(entries[..i], q)
    {
      var entry := entries[i];
      FilteredSnoc(entries, i, q);
      if Contains(Lower(entry.title), q) {
        results := results + [entry];
      } else {
        var texts := Texts(entry);
        var k := 0;
        var hit := false;
        while k < |texts| && !hit
          invariant k <= |texts|
          invariant hit <==> k > 0 && Contains(Lower(texts[k - 1]), q)
          invariant forall j :: 0 <= j < k && !(hit && j == k - 1) ==> !Contains(Lower(texts[j]), q)
        {
          if Contains(Lower(texts[k]), q) {
            hit := true;
          }
          k := k + 1;
        }
        if hit {
          results := results + [entry];
        } else {
          assert results + [] == results;
        }
      }
      i := i + 1;
    }
    assert entries[..i] == entries;
  }

  /** The input positions of the entries Filtered keeps. */
  function KeptPositions(entries: seq<Entry>, q: string): seq<nat> {
    if entries == [] then []
    else KeptPositions(entries[..|entries| - 1], q)
         + (if Keeps(entries[|entries| - 1], q) then [|entries| - 1] else [])
  }

  /** The result is the input at the kept positions, in order. */
  lemma {:induction false} KeptPositionsSelect(entries: seq<Entry>, q: string)
    ensures |KeptPositions(entries, q)| == |Filtered(entries, q)|
    ensures forall i :: 0 <= i < |KeptPositions(entries, q)| ==>
              KeptPositions(entries, q)[i] < |entries| && Filtered(entries, q)[i] == entries[KeptPositions(entries, q)[i]]
  {
    if entries != [] {
      var init := entries[..|entries| - 1];
      KeptPositionsSelect(init, q);
      var idx := KeptPositions(init, q);
      forall i | 0 <= i < |idx|
        ensures entries[idx[i]] == init[idx[i]]
      {
      }
    }
  }

  /** Positions are strictly increasing: the order is kept and no input
      entry appears twice. */
  lemma {:induction false} KeptPositionsIncreasing(entries: seq<Entry>, q: string)
    ensures forall i :: 0 <= i < |KeptPositions(entries, q)| ==> KeptPositions(entries, q)[i] < |entries|
    ensures forall i, j :: 0 <= i < j < |KeptPositions(entries, q)| ==>
              KeptPositions(entries, q)[i] < KeptPositions(entries, q)[j]
  {
    if entries != [] {
      KeptPositionsIncreasing(entries[..|entries| - 1], q);
    }
  }

  /** Every entry the query keeps has its position listed, and no other. */
  lemma {:induction false} KeptPositionsCover(entries: seq<Entry>, q: string)
    ensures forall k :: 0 <= k < |entries| ==> (Keeps(entries[k], q) <==> k in KeptPositions(entries, q))
  {
    if entries != [] {
      var n := |entries| - 1;
      var init := entries[..n];
      KeptPositionsCover(init, q);
      KeptPositionsIncreasing(init, q);
      forall k | 0 <= k < n
        ensures entries[k] == init[k]
      {
      }
    }
  }

  /** Membership: an entry is in the result exactly when it is an input
      entry that the query keeps; the result is never longer than the input. */
  lemma FilteredMembers(entries: seq<Entry>, query: string)
    requires query != []
    ensures forall e :: e in SearchCorpusSpec(entries, query) <==> e in entries && Keeps(e, Lower(query))
    ensures |SearchCorpusSpec(entries, query)| <= |entries|
  {
    var q := Lower(query);
    KeptPositionsSelect(entries, q);
    KeptPositionsIncreasing(entries, q);
    KeptPositionsCover(entries, q);
    var idx := KeptPositions(entries, q);
    var r := Filtered(entries, q);
    forall e | e in entries && Keeps(e, q)
      ensures e in r
    {
      var k :| 0 <= k < |entries| && entries[k] == e;
      var i :| 0 <= i < |idx| && idx[i] == k;
    }
    IndicesBound(idx, |entries|);
  }

  /** A strictly increasing index sequence below n has at most n entries. */
  lemma {:induction false} IndicesBound(idx: seq<nat>, n: nat)
    requires forall i :: 0 <= i < |idx| ==> idx[i] < n
    requires forall i, j :: 0 <= i < j < |idx| ==> idx[i] < idx[j]
    ensures |idx| <= n
  {
    if idx != [] {
      var last := idx[|idx| - 1];
      IndicesBound(idx[..|idx| - 1], last);
    }
  }
}
