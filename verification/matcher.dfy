/** `findPokemonByImage`: a linear scan of the catalog in key order that keeps the entry
    with the smallest distance to the incoming buffer. Entries whose buffer is `null` are
    skipped, and the running best is replaced only on a strictly smaller score, so the
    first entry reaching the minimum wins. */
module Matcher {
  import opened Common
  import opened ImageDistance
  import opened Dataset

  /** The `bestMatch` record: a name (or `null`) and its score. */
  datatype BestMatch = BestMatch(name: Option<string>, diff: Dist)

  /** The starting value: no name and an infinite score. */
  const NoMatch := BestMatch(None, Unbounded)

  /** One iteration of the scan. */
  function Consider(best: BestMatch, e: Entry, incoming: Pixels): BestMatch
  {
    match e.pixels
    case None => best
    case Some(px) =>
      var d := Distance(incoming, px);
      if Less(d, best.diff) then BestMatch(Some(e.name), d) else best
  }

  /** The whole scan, as a left fold over the catalog. A name is reported exactly when
      the score is finite. */
  function FindPokemonByImage(cat: seq<Entry>, incoming: Pixels): (m: BestMatch)
    ensures m.name.None? <==> m.diff.Unbounded?
  {
    if |cat| == 0 then NoMatch
    else Consider(FindPokemonByImage(cat[..|cat| - 1], incoming), cat[|cat| - 1], incoming)
  }

  /** Entry `i` has a buffer comparable with the incoming one (a finite score). */
  ghost predicate Candidate(cat: seq<Entry>, incoming: Pixels, i: int)
  {
    0 <= i < |cat| && cat[i].pixels.Some? && |cat[i].pixels.value| == |incoming|
  }

  /** The finite score of a candidate. */
  ghost function Score(cat: seq<Entry>, incoming: Pixels, i: int): nat
    requires Candidate(cat, incoming, i)
  {
    Distance(incoming, cat[i].pixels.value).value
  }

  /** Entry `k` is a candidate with the least score, and no earlier candidate has that score. */
  ghost predicate FirstBest(cat: seq<Entry>, incoming: Pixels, k: int)
  {
    && Candidate(cat, incoming, k)
    && (forall j | Candidate(cat, incoming, j) :: Score(cat, incoming, k) <= Score(cat, incoming, j))
    && (forall j | 0 <= j < k && Candidate(cat, incoming, j) :: Score(cat, incoming, k) < Score(cat, incoming, j))
  }

  /** Dropping the last entry leaves the candidates and scores of the others unchanged. */
  lemma PrefixCandidates(cat: seq<Entry>, incoming: Pixels, j: int)
    requires 0 <= j < |cat| - 1
    ensures Candidate(cat[..|cat| - 1], incoming, j) == Candidate(cat, incoming, j)
    ensures Candidate(cat, incoming, j) ==> Score(cat[..|cat| - 1], incoming, j) == Score(cat, incoming, j)
  {
  }

  /** A first best of the catalog without its last entry stays first best when the last
      entry is not a candidate or scores no better. */
  lemma FirstBestKept(cat: seq<Entry>, incoming: Pixels, k: int)
    requires |cat| > 0 && FirstBest(cat[..|cat| - 1], incoming, k)
    requires Candidate(cat, incoming, |cat| - 1) ==>
               Score(cat[..|cat| - 1], incoming, k) <= Score(cat, incoming, |cat| - 1)
    ensures FirstBest(cat, incoming, k)
    ensures Score(cat, incoming, k) == Score(cat[..|cat| - 1], incoming, k)
  {
    var n := |cat| - 1;
    PrefixCandidates(cat, incoming, k);
    forall j | Candidate(cat, incoming, j)
      ensures Score(cat, incoming, k) <= Score(cat, incoming, j)
    {
      if j < n {
        PrefixCandidates(cat, incoming, j);
      }
    }
    forall j | 0 <= j < k && Candidate(cat, incoming, j)
      ensures Score(cat, incoming, k) < Score(cat, incoming, j)
    {
      PrefixCandidates(cat, incoming, j);
    }
  }

  /** The last entry is first best when it is a candidate and every earlier candidate
      scores strictly worse. */
  lemma FirstBestLast(cat: seq<Entry>, prefix: seq<Entry>, incoming: Pixels)
    requires |cat| > 0 && prefix == cat[..|cat| - 1] && Candidate(cat, incoming, |cat| - 1)
    requires forall j | Candidate(prefix, incoming, j) ::
               Score(cat, incoming, |cat| - 1) < Score(prefix, incoming, j)
    ensures FirstBest(cat, incoming, |cat| - 1)
  {
    var n := |cat| - 1;
    forall j | 0 <= j < n && Candidate(cat, incoming, j)
      ensures Score(cat, incoming, n) < Score(cat, incoming, j)
    {
      PrefixCandidates(cat, incoming, j);
    }
  }

  /** The scan agrees with its specification: no name exactly when no entry is a candidate
      (an empty catalog, every buffer `null`, or every length mismatched); otherwise the name
      and score of the first candidate with the least score. */
  lemma {:induction false} FindPokemonByImageSpec(cat: seq<Entry>, incoming: Pixels)
    ensures FindPokemonByImage(cat, incoming).name.None? <==>
              forall i | 0 <= i < |cat| :: !Candidate(cat, incoming, i)
    ensures FindPokemonByImage(cat, incoming).name.Some? ==>
              exists k :: && FirstBest(cat, incoming, k)
                          && FindPokemonByImage(cat, incoming).name == Some(cat[k].name)
                          && FindPokemonByImage(cat, incoming).diff == Finite(Score(cat, incoming, k))
  {
    if |cat| > 0 {
      var n := |cat| - 1;
      var prefix := cat[..n];
      FindPokemonByImageSpec(prefix, incoming);
      var m0 := FindPokemonByImage(prefix, incoming);
      if m0.name.None? {
        forall j | 0 <= j < n
          ensures !Candidate(cat, incoming, j)
        {
          PrefixCandidates(cat, incoming, j);
        }
        if Candidate(cat, incoming, n) {
          FirstBestLast(cat, prefix, incoming);
        }
      } else {
        var k :| FirstBest(prefix, incoming, k) && m0.name == Some(prefix[k].name)
                 && m0.diff == Finite(Score(prefix, incoming, k));
        PrefixCandidates(cat, incoming, k);
        if Candidate(cat, incoming, n) && Score(cat, incoming, n) < m0.diff.value {
          FirstBestLast(cat, prefix, incoming);
        } else {
          FirstBestKept(cat, incoming, k);
        }
      }
    }
  }

  /** At most one entry is the first best. */
  lemma FirstBestUnique(cat: seq<Entry>, incoming: Pixels, k1: int, k2: int)
    requires FirstBest(cat, incoming, k1) && FirstBest(cat, incoming, k2)
    ensures k1 == k2
  {
  }

  /** The catalog with its `null` entries removed. */
  function Present(cat: seq<Entry>): (r: seq<Entry>)
    ensures forall i | 0 <= i < |r| :: r[i].pixels.Some?
  {
    if |cat| == 0 then []
    else
      var p := Present(cat[..|cat| - 1]);
      if cat[|cat| - 1].pixels.Some? then p + [cat[|cat| - 1]] else p
  }

  /** `null` entries never influence the result: the scan over the catalog equals the scan
      over its present entries. */
  lemma {:induction false} NullEntriesSkipped(cat: seq<Entry>, incoming: Pixels)
    ensures FindPokemonByImage(cat, incoming) == FindPokemonByImage(Present(cat), incoming)
  {
    if |cat| > 0 {
      var n := |cat| - 1;
      NullEntriesSkipped(cat[..n], incoming);
      var p := Present(cat[..n]);
      if cat[n].pixels.Some? {
        assert (p + [cat[n]])[..|p|] == p;
      }
    }
  }

  /** An entry never wins against an earlier entry holding the same buffer: whatever the
      rest of the catalog, the later of two equal buffers is never the first best. */
  lemma LaterDuplicateNeverFirst(cat: seq<Entry>, incoming: Pixels, i: int, j: int)
    requires 0 <= i < j < |cat| && cat[i].pixels.Some? && cat[i].pixels == cat[j].pixels
    ensures !FirstBest(cat, incoming, j)
  {
    assert Candidate(cat, incoming, j) ==>
             Candidate(cat, incoming, i) && Score(cat, incoming, i) == Score(cat, incoming, j);
  }

  /** Two entries with the same buffer tie against every comparable incoming buffer, and
      the first of them wins. */
  lemma TieGoesToFirst(buf: Pixels, incoming: Pixels)
    requires |buf| == |incoming|
    ensures FindPokemonByImage([Entry("A", Some(buf)), Entry("B", Some(buf))], incoming).name == Some("A")
  {
    var cat := [Entry("A", Some(buf)), Entry("B", Some(buf))];
    var d := Distance(incoming, buf);
    assert cat[..1] == [Entry("A", Some(buf))];
    assert cat[..1][..0] == [];
    assert FindPokemonByImage(cat[..1], incoming) == BestMatch(Some("A"), d);
  }

  /** The rest of the image-event handler once the embed is recognised: `processImage` of
      the embed's URL yields the incoming buffer or `null` (no reply), and the reply names
      the best match when that name is truthy. A reply always names the first entry with
      the least score; one is sent whenever some entry is comparable and no first best
      entry has an empty name. */
  function Identify(incoming: Option<Pixels>, cat: seq<Entry>): (reply: Option<string>)
    ensures reply.Some? ==> reply.value != ""
    ensures reply.Some? ==>
              incoming.Some? && exists k :: FirstBest(cat, incoming.value, k) && reply == Some(cat[k].name)
    ensures (&& incoming.Some?
             && (exists i :: Candidate(cat, incoming.value, i))
             && (forall k | FirstBest(cat, incoming.value, k) :: cat[k].name != ""))
            ==> reply.Some?
  {
    match incoming
    case None => None
    case Some(q) =>
      FindPokemonByImageSpec(cat, q);
      var m := FindPokemonByImage(cat, q);
      if m.name.Some? && m.name.value != "" then m.name else None
  }

  /** On a catalog built at startup, the truthiness test on the name never drops a match:
      a decoded incoming image gets a reply exactly when some entry is comparable with it,
      and the reply is the first best entry's name. */
  lemma IdentifyOnBuiltCatalog(listing: seq<string>, load: string -> Option<Pixels>, incoming: Pixels)
    ensures var cat := BuildCatalog(listing, load);
            Identify(Some(incoming), cat).Some? <==> exists i :: Candidate(cat, incoming, i)
    ensures var cat := BuildCatalog(listing, load);
            Identify(Some(incoming), cat).Some? ==>
              exists k :: FirstBest(cat, incoming, k) && Identify(Some(incoming), cat) == Some(cat[k].name)
  {
    var cat := BuildCatalog(listing, load);
    FindPokemonByImageSpec(cat, incoming);
    CatalogNamesNonEmpty(listing, load);
  }
}
