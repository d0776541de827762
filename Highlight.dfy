/** highlight_text: wrap every case-insensitive occurrence of the query in
    `<mark>` ... `</mark>`, scanning left to right without overlaps, as
    `re.sub` does with an escaped pattern and IGNORECASE. */
module Highlight {
  import opened Text

  const MarkOpen: string := "<mark>"
  const MarkClose: string := "</mark>"

  /** The escaped pattern matches at index k, ignoring case. */
  predicate MatchesAt(text: string, query: string, k: int) {
    0 <= k && k + |query| <= |text| && Lower(text[k..k + |query|]) == Lower(query)
  }

  /** One step of the substitution: a character copied as it is, or an
      occurrence of the query (in the text's own case) that gets marked. */
  datatype Piece = Keep(c: char) | Hit(s: string)

  function PieceText(p: Piece): string {
    match p
    case Keep(c) => [c]
    case Hit(s) => s
  }

  function PieceMarkup(p: Piece): string {
    match p
    case Keep(c) => [c]
    case Hit(s) => MarkOpen + s + MarkClose
  }

  /** The text a sequence of pieces was cut from. */
  function Original(ps: seq<Piece>): string {
    if ps == [] then "" else PieceText(ps[0]) + Original(ps[1..])
  }

  /** The substitution's output for a sequence of pieces. */
  function Render(ps: seq<Piece>): string {
    if ps == [] then "" else PieceMarkup(ps[0]) + Render(ps[1..])
  }

  /** ps cuts text into marked occurrences and copied characters, and no
      copied character starts an occurrence: the leftmost, non-overlapping
      scan of re.sub. */
  predicate Decomposes(ps: seq<Piece>, text: string, query: string) {
    && Original(ps) == text
    && (forall i :: 0 <= i < |ps| && ps[i].Hit? ==> Lower(ps[i].s) == Lower(query))
    && (forall i :: 0 <= i < |ps| && ps[i].Keep? ==> !MatchesAt(text, query, |Original(ps[..i])|))
  }

  /** The scan itself. */
  function Pieces(text: string, query: string): seq<Piece>
    requires |query| > 0
    decreases |text|
  {
    if text == [] then []
    else if MatchesAt(text, query, 0) then [Hit(text[..|query|])] + Pieces(text[|query|..], query)
    else [Keep(text[0])] + Pieces(text[1..], query)
  }

  /** highlight_text(text, query). */
  function HighlightText(text: string, query: string): (r: string)
    ensures query == [] || text == [] ==> r == text
  {
    if query == [] || text == [] then text else Render(Pieces(text, query))
  }

  lemma MatchesAtShift(text: string, query: string, off: nat, k: int)
    requires off <= |text|
    ensures MatchesAt(text[off..], query, k) <==> (k >= 0 && MatchesAt(text, query, off + k))
  {
    if k >= 0 && off + k + |query| <= |text| {
      assert text[off..][k..k + |query|] == text[off + k..off + k + |query|];
    }
  }

  lemma OriginalCons(p: Piece, ps: seq<Piece>, i: nat)
    requires 1 <= i <= |ps| + 1
    ensures Original(([p] + ps)[..i]) == PieceText(p) + Original(ps[..i - 1])
  {
    assert ([p] + ps)[..i] == [p] + ps[..i - 1];
    assert ([p] + ps[..i - 1])[1..] == ps[..i - 1];
  }

  /** The decomposition of the rest of the text carries over to the whole. */
  lemma DecomposesCons(p: Piece, ps: seq<Piece>, text: string, query: string)
    requires |PieceText(p)| <= |text| && text[..|PieceText(p)|] == PieceText(p)
    requires Decomposes(ps, text[|PieceText(p)|..], query)
    requires p.Hit? ==> Lower(p.s) == Lower(query)
    requires p.Keep? ==> !MatchesAt(text, query, 0)
    ensures Decomposes([p] + ps, text, query)
  {
    var n := |PieceText(p)|;
    var qs := [p] + ps;
    assert qs[1..] == ps;
    assert text == PieceText(p) + text[n..];
    forall i | 0 <= i < |qs| && qs[i].Keep?
      ensures !MatchesAt(text, query, |Original(qs[..i])|)
    {
      if i > 0 {
        assert qs[i] == ps[i - 1];
        KeepUnshifted(p, ps, text, query, i);
      } else {
        assert qs[..0] == [];
      }
    }
  }

  /** A copied character of the rest that starts no occurrence there starts
      none in the whole text. */
  lemma KeepUnshifted(p: Piece, ps: seq<Piece>, text: string, query: string, i: nat)
    requires 1 <= i <= |ps| && |PieceText(p)| <= |text|
    requires !MatchesAt(text[|PieceText(p)|..], query, |Original(ps[..i - 1])|)
    ensures !MatchesAt(text, query, |Original(([p] + ps)[..i])|)
  {
    OriginalCons(p, ps, i);
    MatchesAtShift(text, query, |PieceText(p)|, |Original(ps[..i - 1])|);
  }

  /** The scan produces the leftmost non-overlapping decomposition. */
  lemma {:induction false} PiecesDecompose(text: string, query: string)
    requires |query| > 0
    ensures Decomposes(Pieces(text, query), text, query)
    decreases |text|
  {
    if text == [] {
    } else if MatchesAt(text, query, 0) {
      PiecesDecompose(text[|query|..], query);
      DecomposesCons(Hit(text[..|query|]), Pieces(text[|query|..], query), text, query);
    } else {
      PiecesDecompose(text[1..], query);
      DecomposesCons(Keep(text[0]), Pieces(text[1..], query), text, query);
    }
  }

  /** The first piece of a decomposition is the scan's first step, and the
      remaining pieces decompose the rest of the text. */
  lemma DecomposesTail(ps: seq<Piece>, text: string, query: string)
    requires |query| > 0
    requires ps != [] && Decomposes(ps, text, query)
    ensures |PieceText(ps[0])| <= |text|
    ensures Decomposes(ps[1..], text[|PieceText(ps[0])|..], query)
    ensures ps[0].Hit? ==> MatchesAt(text, query, 0) && ps[0] == Hit(text[..|query|])
    ensures ps[0].Keep? ==> !MatchesAt(text, query, 0) && ps[0] == Keep(text[0])
    ensures Pieces(text, query) == [ps[0]] + Pieces(text[|PieceText(ps[0])|..], query)
    ensures ps == [ps[0]] + ps[1..]
  {
    var p := ps[0];
    var rest := ps[1..];
    assert ps == [p] + rest;
    var n := |PieceText(p)|;
    assert text == PieceText(p) + Original(rest);
    assert text[n..] == Original(rest);
    if p.Hit? {
      assert |p.s| == |query| by {
        assert |Lower(p.s)| == |Lower(query)|;
      }
      assert text[..|query|] == p.s;
      assert MatchesAt(text, query, 0);
    } else {
      assert ps[..0] == [];
      assert !MatchesAt(text, query, 0);
    }
    forall i | 0 <= i < |rest| && rest[i].Keep?
      ensures !MatchesAt(text[n..], query, |Original(rest[..i])|)
    {
      assert ps[i + 1] == rest[i];
      KeepShifted(ps, text, query, i);
    }
  }

  /** A copied character after the first piece still starts no occurrence
      once the first piece is cut off. */
  lemma KeepShifted(ps: seq<Piece>, text: string, query: string, i: nat)
    requires i + 1 < |ps| && Original(ps) == text
    requires !MatchesAt(text, query, |Original(ps[..i + 1])|)
    ensures |PieceText(ps[0])| <= |text|
    ensures !MatchesAt(text[|PieceText(ps[0])|..], query, |Original(ps[1..][..i])|)
  {
    var p, rest := ps[0], ps[1..];
    assert ps == [p] + rest;
    OriginalCons(p, rest, i + 1);
    MatchesAtShift(text, query, |PieceText(p)|, |Original(rest[..i])|);
  }

  /** ... and it is the only one. */
  lemma {:induction false} PiecesUnique(ps: seq<Piece>, text: string, query: string)
    requires |query| > 0
    requires Decomposes(ps, text, query)
    ensures ps == Pieces(text, query)
    decreases |ps|
  {
    if ps != [] {
      var p, rest := ps[0], ps[1..];
      DecomposesTail(ps, text, query);
      var n := |PieceText(p)|;
      PiecesUnique(rest, text[n..], query);
    }
  }

  /** Rendering a decomposition without hits copies the text. */
  lemma {:induction false} RenderNoHits(ps: seq<Piece>)
    requires forall i :: 0 <= i < |ps| ==> ps[i].Keep?
    ensures Render(ps) == Original(ps)
  {
    if ps != [] {
      RenderNoHits(ps[1..]);
    }
  }

  /** A text with no occurrence of the query comes back unchanged. */
  lemma HighlightNoMatch(text: string, query: string)
    requires forall k :: !MatchesAt(text, query, k)
    ensures HighlightText(text, query) == text
  {
    if query != [] && text != [] {
      var ps := Pieces(text, query);
      PiecesDecompose(text, query);
      forall i | 0 <= i < |ps|
        ensures ps[i].Keep?
      {
        if ps[i].Hit? {
          HitMatches(ps, text, query, i);
          assert false;
        }
      }
      RenderNoHits(ps);
    }
  }

  /** A hit sits in the original text at the offset of the pieces before it. */
  lemma {:induction false} PieceAt(ps: seq<Piece>, i: nat)
    requires i < |ps|
    ensures var off := |Original(ps[..i])|;
      off + |PieceText(ps[i])| <= |Original(ps)|
      && Original(ps)[off..off + |PieceText(ps[i])|] == PieceText(ps[i])
  {
    if i == 0 {
      assert ps[..0] == [];
    } else {
      var p, rest := ps[0], ps[1..];
      PieceAt(rest, i - 1);
      OriginalCons(p, rest, i);
      assert ps == [p] + rest;
      var off := |Original(rest[..i - 1])|;
      SliceAfter(PieceText(p), Original(rest), off, off + |PieceText(ps[i])|);
    }
  }

  lemma SliceAfter(a: string, b: string, j: nat, k: nat)
    requires j <= k <= |b|
    ensures (a + b)[|a| + j..|a| + k] == b[j..k]
  {
  }

  /** Every marked piece is an occurrence of the query at its offset. */
  lemma HitMatches(ps: seq<Piece>, text: string, query: string, i: nat)
    requires Decomposes(ps, text, query)
    requires i < |ps| && ps[i].Hit?
    ensures MatchesAt(text, query, |Original(ps[..i])|)
  {
    PieceAt(ps, i);
  }

  /** MatchesAt on the text is an occurrence of the lowered query in the
      lowered text, which is what the search's `in` tests. */
  lemma MatchesAtLower(text: string, query: string, k: int)
    ensures MatchesAt(text, query, k) <==> OccursAt(Lower(text), Lower(query), k)
  {
    if 0 <= k && k + |query| <= |text| {
      LowerSlice(text, k, k + |query|);
    }
  }
}
