/** Concrete cases of the model, proved on small inputs. */
module Scenarios {
  import opened Tags
  import opened Text
  import opened Lexicon
  import Lemm

  /** A corpus that reads "lotion" three times as a noun with lemma "lot"
      and once, third, as a verb with lemma "loot": counting gives the noun
      three and the verb one, so "lotion" resolves to the noun reading,
      whatever the dictionary holds. */
  lemma LotionScenario(d: Dict)
    ensures var rs := [Lemm.Reading("lotion", "lot", S), Lemm.Reading("lotion", "lot", S),
                       Lemm.Reading("lotion", "loot", V), Lemm.Reading("lotion", "lot", S)];
      Lemm.StatsOf(Lemm.Counted(map[], rs), "lotion") == [Lemm.TagStat(S, "lot", 3), Lemm.TagStat(V, "loot", 1)] &&
      Lemm.Resolve(Lemm.StatsOf(Lemm.Counted(map[], rs), "lotion"), "lotion", d) == LemmaEntry("lot", S)
  {
    var noun, verb := Lemm.Reading("lotion", "lot", S), Lemm.Reading("lotion", "loot", V);
    var rs := [noun, noun, verb, noun];
    assert rs[..3] == [noun, noun, verb] && rs[..3][..2] == [noun, noun] && rs[..3][..2][..1] == [noun];
    var t1 := Lemm.StatsOf(Lemm.Counted(map[], [noun]), "lotion");
    assert Lemm.Counted(map[], [noun]) == Lemm.CountReading(map[], noun);
    assert t1 == [Lemm.TagStat(S, "lot", 1)];
    var t2 := Lemm.StatsOf(Lemm.Counted(map[], [noun, noun]), "lotion");
    assert Lemm.Counted(map[], [noun, noun]) == Lemm.CountReading(Lemm.Counted(map[], [noun]), noun);
    assert t2 == [Lemm.TagStat(S, "lot", 2)];
    var t3 := Lemm.StatsOf(Lemm.Counted(map[], rs[..3]), "lotion");
    assert Lemm.Counted(map[], rs[..3]) == Lemm.CountReading(Lemm.Counted(map[], [noun, noun]), verb);
    assert t3 == [Lemm.TagStat(S, "lot", 2), Lemm.TagStat(V, "loot", 1)];
    assert Lemm.Counted(map[], rs) == Lemm.CountReading(Lemm.Counted(map[], rs[..3]), noun);
    var t := Lemm.StatsOf(Lemm.Counted(map[], rs), "lotion");
    assert t == [Lemm.TagStat(S, "lot", 3), Lemm.TagStat(V, "loot", 1)];
    assert Lemm.Winner(t) == 0;
  }

  /** Normalisation lower-cases a capital Latin letter. */
  lemma RunNormalises()
    ensures PreprocessStr("Run") == "run"
  {
  }

  /** A capitalised token with no frequencies but a dictionary entry takes
      both the lemma and the tag of the dictionary entry. */
  lemma CapitalisedTokenScenario(f: Lemm.FreqTable)
    requires Lemm.WellFormed(f)
    ensures Lemm.ProcessWord(f, "Run", map["run" := LemmaEntry("run", V)]) == "Run{run=V}"
  {
    RunNormalises();
    Lemm.RawTokenHasNoStats(f, "Run");
  }
}
