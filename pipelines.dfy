/** How the two lemmatizers relate: the corpus lemmatizer falls back on the
    word-list lemmatizer's lookup, its word list overrides its corpus, and
    its word-list loader differs from the other one only on rows without
    word forms. */
module Pipelines {
  import opened Tags
  import opened Text
  import opened Lexicon
  import Lemm
  import Lemmatize

  /** Without frequencies, or when the most frequent corpus tag is NI, the
      corpus lemmatizer decides exactly as the word-list lemmatizer does. */
  lemma FallbackIsLookup(stats: Lemm.TagTable, w: string, d: Dict)
    requires stats == [] || stats[Lemm.Winner(stats)].tag == NI
    ensures Lemm.Resolve(stats, w, d) == Lemmatize.Resolve(w, d)
  {
  }

  /** With an identified most frequent tag the dictionary is ignored: the
      word is annotated with that tag and its first corpus lemma. */
  lemma FrequencyOverridesLookup(stats: Lemm.TagTable, w: string, d: Dict, d': Dict)
    requires stats != [] && stats[Lemm.Winner(stats)].tag != NI
    ensures Lemm.Resolve(stats, w, d) == Lemm.Resolve(stats, w, d')
    ensures Lemm.Resolve(stats, w, d) == LemmaEntry(stats[Lemm.Winner(stats)].base, stats[Lemm.Winner(stats)].tag)
  {
  }

  /** Frequencies are looked up under the raw token while the table is keyed
      by normalised words, so a token with a capital letter or ё never sees
      them and is annotated as the word-list lemmatizer would annotate it. */
  lemma RawTokenAnnotatedByLookup(f: Lemm.FreqTable, w: string, d: Dict)
    requires Lemm.WellFormed(f)
    requires PreprocessStr(w) != w
    ensures Lemm.ProcessWord(f, w, d) == Lemmatize.ProcessWord(w, d)
  {
    Lemm.RawTokenHasNoStats(f, w);
    FallbackIsLookup(Lemm.StatsOf(f, w), w, d);
  }

  /** Every key the word list names holds the same entry whatever the corpus
      contributed: the word list overrides the corpus on those keys. */
  lemma WordListOverridesCorpus(rs: seq<Lemm.Reading>, rows: seq<Row>, k: string, i: nat)
    requires Lemm.OdictLoads(rows) && i < |rows| && Mentions(rows[i], k)
    ensures k in Overlay(Lemm.CorpusDict(rs), Lemm.OdictWrites(rows)) && k in Overlay(map[], Lemm.OdictWrites(rows))
    ensures Overlay(Lemm.CorpusDict(rs), Lemm.OdictWrites(rows))[k] == Overlay(map[], Lemm.OdictWrites(rows))[k]
  {
    var ws := Lemm.OdictWrites(rows);
    RowKeysMentions(rows[i]);
    assert k in ws[i].keys;
    OverlayMentionedIndependent(Lemm.CorpusDict(rs), map[], ws, k);
  }

  /** A key of the corpus that no word-list row names keeps its corpus entry. */
  lemma CorpusSurvivesOverlay(rs: seq<Lemm.Reading>, rows: seq<Row>, k: string)
    requires Lemm.OdictLoads(rows)
    requires k in Lemm.CorpusDict(rs)
    requires forall i | 0 <= i < |rows| :: !Mentions(rows[i], k)
    ensures k in Overlay(Lemm.CorpusDict(rs), Lemm.OdictWrites(rows))
    ensures Overlay(Lemm.CorpusDict(rs), Lemm.OdictWrites(rows))[k] == Lemm.CorpusDict(rs)[k]
  {
    Lemm.OdictLastWins(rows, Lemm.CorpusDict(rs), k);
  }

  /** When every row has word forms, the corpus lemmatizer's word-list
      overlay on an empty dictionary builds exactly the word-list
      lemmatizer's dictionary. */
  lemma OverlayMatchesWordListLoader(rows: seq<Row>)
    requires Lemmatize.RowsLoad(rows)
    requires forall i | 0 <= i < |rows| :: |rows[i]| > 2
    ensures Lemm.OdictLoads(rows)
    ensures Overlay(map[], Lemm.OdictWrites(rows)) == Lemmatize.Loaded(rows)
  {
    assert Lemm.OdictLoads(rows);
    var ws, vs := Lemm.OdictWrites(rows), Lemmatize.RowWrites(rows);
    forall i | 0 <= i < |rows|
      ensures ws[i] == vs[i]
    {
      assert Lemm.UsedTag(rows, i) == WordListTags[rows[i][1]];
    }
    assert ws == vs;
  }

  /** The two loaders disagree on a row without word forms: the corpus
      lemmatizer registers its lemma with the tag of the last earlier row
      that has forms, the word-list lemmatizer with the row's own tag. */
  lemma FormlessRowTagsDiffer(rows: seq<Row>, i: nat, j: nat)
    requires Lemmatize.RowsLoad(rows) && Lemm.OdictLoads(rows)
    requires i < |rows| && |rows[i]| == 2 && Lemm.LastFormRowBefore(rows, i, j)
    requires forall k | i < k < |rows| :: !Mentions(rows[k], PreprocessStr(rows[i][0]))
    ensures PreprocessStr(rows[i][0]) in Overlay(map[], Lemm.OdictWrites(rows)) && PreprocessStr(rows[i][0]) in Lemmatize.Loaded(rows)
    ensures Overlay(map[], Lemm.OdictWrites(rows))[PreprocessStr(rows[i][0])].tag == WordListTags[rows[j][1]]
    ensures Lemmatize.Loaded(rows)[PreprocessStr(rows[i][0])].tag == WordListTags[rows[i][1]]
  {
    var k := PreprocessStr(rows[i][0]);
    Lemm.OdictLastWins(rows, map[], k);
    Lemm.UsedTagStale(rows, i, j);
    Lemmatize.FormlessRowRegistersLemma(rows, i);
  }

  /** Ties in frequency go to the tag seen first in the corpus. */
  lemma TieGoesToFirstTag(a: Lemm.TagStat, b: Lemm.TagStat)
    requires a.count == b.count
    ensures Lemm.Winner([a, b]) == 0
  {
  }
}
