/** The corpus lemmatizer (hw1/lemm.py): per-word, per-tag frequencies and a
    first lemma dictionary from the annotated corpus, an overlay of the word
    list on that dictionary, and a resolver that prefers the most frequent
    corpus reading and falls back on the dictionary. */
module Lemm {
  import opened Tags
  import opened Text
  import opened Lexicon

  /** A corpus token as extracted from a document: the `text` attribute, the
      lemma text (`tfr/v/l`) and the grammeme (`tfr/v/l/g`). */
  datatype CorpusToken = CorpusToken(text: string, base: string, grammeme: string)

  /** One item of `frequencies[word]`: a tag with its first-seen lemma and count. */
  datatype TagStat = TagStat(tag: Tag, base: string, count: nat)

  /** `frequencies[word]`, a dictionary from tags to (lemma, count), kept as
      a sequence in insertion order. */
  type TagTable = seq<TagStat>

  /** The global `frequencies` table. */
  type FreqTable = map<string, TagTable>

  /** The grammeme is in the corpus table (otherwise the source fails with KeyError). */
  predicate TokensLoad(tokens: seq<CorpusToken>)
  {
    forall i | 0 <= i < |tokens| :: tokens[i].grammeme in CorpusTags
  }

  // ---------------------------------------------------------------------
  // One word's tag table

  /** Where `tag` sits in the table (`tag in d`), if anywhere. */
  function IndexOf(t: TagTable, tag: Tag): (r: Option<nat>)
    ensures r.Some? ==> r.value < |t| && t[r.value].tag == tag
  {
    if t == [] then None
    else if t[0].tag == tag then Some(0)
    else match IndexOf(t[1..], tag)
      case None => None
      case Some(k) => Some(k + 1)
  }

  /** IndexOf finds the first position holding the tag, and finds nothing
      exactly when no position holds it. */
  lemma {:induction false} IndexOfFirst(t: TagTable, tag: Tag)
    ensures IndexOf(t, tag).Some? ==> forall j | 0 <= j < IndexOf(t, tag).value :: t[j].tag != tag
    ensures IndexOf(t, tag).None? <==> forall j | 0 <= j < |t| :: t[j].tag != tag
  {
    if t != [] && t[0].tag != tag {
      IndexOfFirst(t[1..], tag);
      assert forall j | 1 <= j < |t| :: t[j] == t[1..][j - 1];
    }
  }

  /** `d[tag]`, if present. */
  function Find(t: TagTable, tag: Tag): Option<TagStat>
  {
    match IndexOf(t, tag)
    case None => None
    case Some(k) => Some(t[k])
  }

  /** No tag occurs twice (a dictionary has unique keys). */
  predicate DistinctTags(t: TagTable)
  {
    forall i, j | 0 <= i < j < |t| :: t[i].tag != t[j].tag
  }

  /** One corpus occurrence of (word, tag): count up a present tag and keep
      its lemma, or append the tag with this lemma and count 1. */
  function Bump(t: TagTable, tag: Tag, base: string): TagTable
  {
    match IndexOf(t, tag)
    case Some(k) => t[k := TagStat(tag, t[k].base, t[k].count + 1)]
    case None => t + [TagStat(tag, base, 1)]
  }

  /** After Bump the bumped tag has one more occurrence (keeping its first
      lemma) or is new with count 1 and the given lemma, and every other tag
      reads as before. */
  lemma BumpFind(t: TagTable, tag: Tag, base: string, other: Tag)
    ensures Find(Bump(t, tag, base), other) ==
      if other != tag then Find(t, other)
      else match Find(t, tag)
        case Some(s) => Some(TagStat(tag, s.base, s.count + 1))
        case None => Some(TagStat(tag, base, 1))
  {
    match IndexOf(t, tag)
    case Some(k) =>
      SameTagsSameIndex(Bump(t, tag, base), t, other);
    case None =>
      AppendIndex(t, TagStat(tag, base, 1), other);
  }

  /** Bump keeps the insertion order: a present tag stays where it is, a new
      one goes last; tags stay distinct and counts positive. */
  lemma BumpShape(t: TagTable, tag: Tag, base: string)
    ensures Find(t, tag).None? ==> Bump(t, tag, base) == t + [TagStat(tag, base, 1)]
    ensures Find(t, tag).Some? ==> |Bump(t, tag, base)| == |t| && forall i | 0 <= i < |t| :: Bump(t, tag, base)[i].tag == t[i].tag
    ensures DistinctTags(t) ==> DistinctTags(Bump(t, tag, base))
    ensures (forall i | 0 <= i < |t| :: t[i].count >= 1) ==> forall i | 0 <= i < |Bump(t, tag, base)| :: Bump(t, tag, base)[i].count >= 1
    ensures Bump(t, tag, base) != []
  {
    IndexOfFirst(t, tag);
  }

  /** IndexOf looks at the tags only. */
  lemma {:induction false} SameTagsSameIndex(r: TagTable, t: TagTable, tag: Tag)
    requires |r| == |t| && forall i | 0 <= i < |t| :: r[i].tag == t[i].tag
    ensures IndexOf(r, tag) == IndexOf(t, tag)
  {
    if t != [] && t[0].tag != tag {
      SameTagsSameIndex(r[1..], t[1..], tag);
    }
  }

  /** Appending a stat moves no earlier tag and finds its own tag last. */
  lemma {:induction false} AppendIndex(t: TagTable, s: TagStat, tag: Tag)
    ensures IndexOf(t + [s], tag) == match IndexOf(t, tag)
      case Some(k) => Some(k)
      case None => if s.tag == tag then Some(|t|) else None
  {
    if t != [] {
      assert (t + [s])[1..] == t[1..] + [s];
      if t[0].tag != tag {
        AppendIndex(t[1..], s, tag);
      }
    } else {
      assert t + [s] == [s];
    }
  }

  /** The winner of `max(frequencies[w].items(), key=count)`: an item of
      largest count, and the first such item in insertion order. */
  predicate FirstMax(t: TagTable, i: int)
  {
    && 0 <= i < |t|
    && (forall j | 0 <= j < |t| :: t[j].count <= t[i].count)
    && (forall j | 0 <= j < i :: t[j].count < t[i].count)
  }

  /** Python's `max` scans left to right and replaces its candidate only on a
      strictly larger key. */
  function Winner(t: TagTable): (i: nat)
    requires t != []
    ensures i < |t|
  {
    if |t| == 1 then 0
    else
      var k := Winner(t[..|t| - 1]);
      if t[|t| - 1].count > t[k].count then |t| - 1 else k
  }

  /** So the winner is the first item of largest count. */
  lemma {:induction false} WinnerFirstMax(t: TagTable)
    requires t != []
    ensures FirstMax(t, Winner(t))
  {
    if |t| > 1 {
      WinnerFirstMax(t[..|t| - 1]);
    }
  }

  /** Exactly one index is a first maximum. */
  lemma FirstMaxUnique(t: TagTable, i: int, j: int)
    requires FirstMax(t, i) && FirstMax(t, j)
    ensures i == j
  {
    assert t[i].count == t[j].count;
  }

  // ---------------------------------------------------------------------
  // The frequency table over the corpus

  /** What the loader reads off one token before it updates anything: the
      normalised word, the normalised lemma and the coarse tag. */
  datatype Reading = Reading(word: string, base: string, tag: Tag)

  function Read(tok: CorpusToken): Reading
    requires tok.grammeme in CorpusTags
  {
    Reading(PreprocessStr(tok.text), PreprocessStr(tok.base), CorpusTags[tok.grammeme])
  }

  /** The readings of the tokens, in corpus order. */
  function Readings(tokens: seq<CorpusToken>): seq<Reading>
    requires TokensLoad(tokens)
  {
    seq(|tokens|, i requires 0 <= i < |tokens| => Read(tokens[i]))
  }

  /** Every reading has a normalised word and a normalised lemma. */
  predicate NormalReadings(rs: seq<Reading>)
  {
    forall i | 0 <= i < |rs| :: IsNormal(rs[i].word) && IsNormal(rs[i].base)
  }

  lemma ReadingsNormal(tokens: seq<CorpusToken>)
    requires TokensLoad(tokens)
    ensures NormalReadings(Readings(tokens))
  {
    forall i | 0 <= i < |tokens|
      ensures IsNormal(Readings(tokens)[i].word) && IsNormal(Readings(tokens)[i].base)
    {
      PreprocessStrIsNormal(tokens[i].text);
      PreprocessStrIsNormal(tokens[i].base);
    }
  }

  /** `frequencies[w]` of a defaultdict: the table, or an empty one. */
  function StatsOf(f: FreqTable, w: string): TagTable
  {
    if w in f then f[w] else []
  }

  /** `frequencies[word][tag]`, if present. */
  function Stat(f: FreqTable, w: string, tag: Tag): Option<TagStat>
  {
    Find(StatsOf(f, w), tag)
  }

  /** The frequency update for one reading. */
  function CountReading(f: FreqTable, r: Reading): FreqTable
  {
    f[r.word := Bump(StatsOf(f, r.word), r.tag, r.base)]
  }

  /** The frequency table after counting the readings in order. */
  function Counted(f: FreqTable, rs: seq<Reading>): FreqTable
  {
    if rs == [] then f else CountReading(Counted(f, rs[..|rs| - 1]), rs[|rs| - 1])
  }

  /** The reading is an occurrence of `w` read as `tag`. */
  predicate Occurs(r: Reading, w: string, tag: Tag)
  {
    r.word == w && r.tag == tag
  }

  /** How many readings are occurrences of `w` read as `tag`. */
  function Occurrences(rs: seq<Reading>, w: string, tag: Tag): nat
  {
    if rs == [] then 0
    else Occurrences(rs[..|rs| - 1], w, tag) + if Occurs(rs[|rs| - 1], w, tag) then 1 else 0
  }

  /** Reading i is the first occurrence of `w` read as `tag`. */
  predicate FirstOccurrence(rs: seq<Reading>, w: string, tag: Tag, i: int)
  {
    0 <= i < |rs| && Occurs(rs[i], w, tag) && forall j | 0 <= j < i :: !Occurs(rs[j], w, tag)
  }

  /** One reading bumps the stat of its own (word, tag) and of no other. */
  lemma StatStep(g: FreqTable, r: Reading, w: string, tag: Tag)
    ensures Stat(CountReading(g, r), w, tag) ==
      if !Occurs(r, w, tag) then Stat(g, w, tag)
      else match Stat(g, w, tag)
        case Some(s) => Some(TagStat(tag, s.base, s.count + 1))
        case None => Some(TagStat(tag, r.base, 1))
  {
    if r.word == w {
      BumpFind(StatsOf(g, w), r.tag, r.base, tag);
    }
  }

  /** A stat present before the scan keeps its lemma and gains one count
      per occurrence. */
  lemma {:induction false} CountedStatPresent(f: FreqTable, rs: seq<Reading>, w: string, tag: Tag)
    requires Stat(f, w, tag).Some?
    ensures Stat(Counted(f, rs), w, tag)
      == Some(TagStat(tag, Stat(f, w, tag).value.base, Stat(f, w, tag).value.count + Occurrences(rs, w, tag)))
  {
    if rs != [] {
      var n := |rs| - 1;
      CountedStatPresent(f, rs[..n], w, tag);
      StatStep(Counted(f, rs[..n]), rs[n], w, tag);
    }
  }

  /** A (word, tag) pair that never occurs gets no stat. */
  lemma {:induction false} CountedStatAbsent(f: FreqTable, rs: seq<Reading>, w: string, tag: Tag)
    requires Stat(f, w, tag).None?
    requires forall j | 0 <= j < |rs| :: !Occurs(rs[j], w, tag)
    ensures Stat(Counted(f, rs), w, tag).None?
    ensures Occurrences(rs, w, tag) == 0
  {
    if rs != [] {
      var n := |rs| - 1;
      assert forall j | 0 <= j < n :: rs[..n][j] == rs[j];
      CountedStatAbsent(f, rs[..n], w, tag);
      StatStep(Counted(f, rs[..n]), rs[n], w, tag);
    }
  }

  /** A stat created during the scan takes the lemma of the first occurrence
      and counts every occurrence. */
  lemma {:induction false} CountedStatCreated(f: FreqTable, rs: seq<Reading>, w: string, tag: Tag, i: nat)
    requires Stat(f, w, tag).None?
    requires FirstOccurrence(rs, w, tag, i)
    ensures Stat(Counted(f, rs), w, tag) == Some(TagStat(tag, rs[i].base, Occurrences(rs, w, tag)))
  {
    var n := |rs| - 1;
    var init := rs[..n];
    assert Counted(f, rs) == CountReading(Counted(f, init), rs[n]);
    assert Occurrences(rs, w, tag) == Occurrences(init, w, tag) + if Occurs(rs[n], w, tag) then 1 else 0;
    StatStep(Counted(f, init), rs[n], w, tag);
    if i == n {
      assert forall j | 0 <= j < n :: init[j] == rs[j];
      CountedStatAbsent(f, init, w, tag);
    } else {
      assert FirstOccurrence(init, w, tag, i) by {
        assert forall j | 0 <= j <= i :: init[j] == rs[j];
      }
      CountedStatCreated(f, init, w, tag, i);
    }
  }

  /** A table the loader can produce: normalised keys, non-empty tag tables
      with unique tags and positive counts. */
  predicate WellFormed(f: FreqTable)
  {
    forall w | w in f :: IsNormal(w) && f[w] != [] && DistinctTags(f[w]) && forall i | 0 <= i < |f[w]| :: f[w][i].count >= 1
  }

  /** Counting normalised readings keeps the table well formed. */
  lemma {:induction false} CountedWellFormed(f: FreqTable, rs: seq<Reading>)
    requires WellFormed(f) && NormalReadings(rs)
    ensures WellFormed(Counted(f, rs))
  {
    if rs != [] {
      var n := |rs| - 1;
      assert NormalReadings(rs[..n]) by {
        assert forall j | 0 <= j < n :: rs[..n][j] == rs[j];
      }
      CountedWellFormed(f, rs[..n]);
      BumpShape(StatsOf(Counted(f, rs[..n]), rs[n].word), rs[n].tag, rs[n].base);
    }
  }

  /** Every key of the frequency table is a normalised string, so a token
      that normalisation would change never has frequencies. */
  lemma RawTokenHasNoStats(f: FreqTable, w: string)
    requires WellFormed(f)
    requires PreprocessStr(w) != w
    ensures StatsOf(f, w) == []
  {
    PreprocessStrFixedIffNormal(w);
  }

  // ---------------------------------------------------------------------
  // The first lemma dictionary from the corpus

  /** What one reading writes into `lemma_dict`: (lemma, tag) under the word
      and under the lemma itself. */
  function ReadingWrite(r: Reading): Write
  {
    Write([r.word, r.base], LemmaEntry(r.base, r.tag))
  }

  function CorpusWrites(rs: seq<Reading>): seq<Write>
  {
    seq(|rs|, i requires 0 <= i < |rs| => ReadingWrite(rs[i]))
  }

  /** The dictionary `load_dictionary` returns. */
  function CorpusDict(rs: seq<Reading>): Dict
  {
    Overlay(map[], CorpusWrites(rs))
  }

  /** The reading names k: k is its word or its lemma. */
  predicate ReadingMentions(r: Reading, k: string)
  {
    k == r.word || k == r.base
  }

  /** One reading more: its word, then its lemma, are written over the
      dictionary built so far. */
  lemma CorpusDictSnoc(rs: seq<Reading>)
    requires rs != []
    ensures var r := rs[|rs| - 1];
      CorpusDict(rs) == CorpusDict(rs[..|rs| - 1])[r.word := LemmaEntry(r.base, r.tag)][r.base := LemmaEntry(r.base, r.tag)]
  {
    var n := |rs| - 1;
    assert CorpusWrites(rs)[..n] == CorpusWrites(rs[..n]);
    var before, w := CorpusDict(rs[..n]), ReadingWrite(rs[n]);
    assert w.keys[..1][..0] == [];
    assert PutAll(before, w.keys[..1], w.entry) == before[w.keys[0] := w.entry];
    assert PutAll(before, w.keys, w.entry) == before[w.keys[0] := w.entry][w.keys[1] := w.entry];
  }

  /** Last writer wins over the corpus: a key is present iff some reading
      names it, with the lemma and tag of the last reading that names it. */
  lemma CorpusDictLastWins(rs: seq<Reading>, k: string)
    ensures k in CorpusDict(rs) <==> exists i | 0 <= i < |rs| :: ReadingMentions(rs[i], k)
    ensures forall i | 0 <= i < |rs| && ReadingMentions(rs[i], k) && (forall j | i < j < |rs| :: !ReadingMentions(rs[j], k)) ::
      CorpusDict(rs)[k] == LemmaEntry(rs[i].base, rs[i].tag)
  {
    var ws := CorpusWrites(rs);
    OverlayLastWins(map[], ws, k);
    forall i | 0 <= i < |rs|
      ensures k in ws[i].keys <==> ReadingMentions(rs[i], k)
    {
      assert ws[i] == ReadingWrite(rs[i]);
    }
    if k in CorpusDict(rs) {
      var i :| 0 <= i < |ws| && k in ws[i].keys;
      assert ReadingMentions(rs[i], k);
    }
    forall i | 0 <= i < |rs| && ReadingMentions(rs[i], k) && (forall j | i < j < |rs| :: !ReadingMentions(rs[j], k))
      ensures CorpusDict(rs)[k] == LemmaEntry(rs[i].base, rs[i].tag)
    {
      assert LastMention(ws, k, i);
    }
  }

  /** A word and its lemma from the same token resolve to the same entry as
      long as no later token names either. */
  lemma CorpusWordAndLemmaAgree(rs: seq<Reading>, i: nat)
    requires i < |rs|
    requires forall j | i < j < |rs| :: !ReadingMentions(rs[j], rs[i].word) && !ReadingMentions(rs[j], rs[i].base)
    ensures rs[i].word in CorpusDict(rs) && rs[i].base in CorpusDict(rs)
    ensures CorpusDict(rs)[rs[i].word] == CorpusDict(rs)[rs[i].base] == LemmaEntry(rs[i].base, rs[i].tag)
  {
    CorpusDictLastWins(rs, rs[i].word);
    CorpusDictLastWins(rs, rs[i].base);
  }

  // ---------------------------------------------------------------------
  // The word-list overlay (`load_odict`)

  /** The overlay runs to the end: every row has a lemma column, every row
      with forms has a known label (the label is looked up inside the loop
      over the forms), and a row without forms comes after some row with
      forms (otherwise `tag` is unbound: UnboundLocalError). */
  predicate OdictLoads(rows: seq<Row>)
  {
    forall i | 0 <= i < |rows| ::
      && |rows[i]| >= 1
      && (|rows[i]| > 2 ==> rows[i][1] in WordListTags)
      && (|rows[i]| <= 2 ==> exists j | 0 <= j < i :: |rows[j]| > 2)
  }

  /** The tag row i registers its keys with: its own label's tag when it has
      forms, else whatever the loop variable `tag` still holds from the row
      before. */
  function UsedTag(rows: seq<Row>, i: nat): Tag
    requires OdictLoads(rows) && i < |rows|
  {
    if |rows[i]| > 2 then WordListTags[rows[i][1]] else UsedTag(rows, i - 1)
  }

  /** Row j is the last row before row i with word forms. */
  predicate LastFormRowBefore(rows: seq<Row>, i: int, j: int)
  {
    0 <= j < i <= |rows| && |rows[j]| > 2 && forall k | j < k < i :: |rows[k]| <= 2
  }

  /** A row without forms is registered with the label of the last earlier
      row that has forms, not with its own label. */
  lemma {:induction false} UsedTagStale(rows: seq<Row>, i: nat, j: nat)
    requires OdictLoads(rows) && i < |rows| && |rows[i]| <= 2
    requires LastFormRowBefore(rows, i, j)
    ensures UsedTag(rows, i) == WordListTags[rows[j][1]]
  {
    if j < i - 1 {
      UsedTagStale(rows, i - 1, j);
    }
  }

  /** What row i writes: (normalised lemma, tag) under its normalised forms
      and its normalised lemma. */
  function OdictWrites(rows: seq<Row>): seq<Write>
    requires OdictLoads(rows)
  {
    seq(|rows|, i requires 0 <= i < |rows| => Write(RowKeys(rows[i]), LemmaEntry(PreprocessStr(rows[i][0]), UsedTag(rows, i))))
  }

  /** `load_odict`, updating the caller's `lemma_dict`: the rows' writes in order. */
  method LoadOdict(rows: seq<Row>, d: Dict) returns (lemmaDict: Dict)
    requires OdictLoads(rows)
    ensures lemmaDict == Overlay(d, OdictWrites(rows))
  {
    lemmaDict := d;
    var tag: Option<Tag> := None;
    for i := 0 to |rows|
      invariant lemmaDict == Overlay(d, OdictWrites(rows)[..i])
      invariant i > 0 ==> tag == Some(UsedTag(rows, i - 1))
    {
      var row := rows[i];
      ghost var before, tag0 := lemmaDict, tag;
      ghost var entry := LemmaEntry(PreprocessStr(row[0]), UsedTag(rows, i));
      var j := 2;
      while j < |row|
        invariant 2 <= j && j - 2 <= |Forms(row)|
        invariant tag == if j > 2 then Some(UsedTag(rows, i)) else tag0
        invariant lemmaDict == PutAll(before, PreprocessAll(Forms(row)[..j - 2]), entry)
      {
        assert PreprocessAll(Forms(row)[..j - 1])[..j - 2] == PreprocessAll(Forms(row)[..j - 2]);
        tag := Some(WordListTags[row[1]]);
        lemmaDict := lemmaDict[PreprocessStr(row[j]) := LemmaEntry(PreprocessStr(row[0]), tag.value)];
        j := j + 1;
      }
      assert Forms(row)[..j - 2] == Forms(row);
      assert tag == Some(UsedTag(rows, i));
      lemmaDict := lemmaDict[PreprocessStr(row[0]) := LemmaEntry(PreprocessStr(row[0]), tag.value)];
      OdictSnoc(rows, d, i);
    }
    assert OdictWrites(rows)[..|rows|] == OdictWrites(rows);
  }

  /** The overlay of one row more is the overlay so far with that row's
      forms, then its lemma, written over it. */
  lemma OdictSnoc(rows: seq<Row>, d: Dict, i: nat)
    requires OdictLoads(rows) && i < |rows|
    ensures var entry := LemmaEntry(PreprocessStr(rows[i][0]), UsedTag(rows, i));
      Overlay(d, OdictWrites(rows)[..i + 1])
        == PutAll(Overlay(d, OdictWrites(rows)[..i]), PreprocessAll(Forms(rows[i])), entry)[PreprocessStr(rows[i][0]) := entry]
  {
    var ws := OdictWrites(rows);
    assert ws[..i + 1][..i] == ws[..i];
    RowKeysMentions(rows[i]);
  }

  /** After row i, every key the row names holds (normalised lemma, tag),
      overwriting what the corpus or earlier rows stored there, with the
      row's own label when it has forms; no other key changes. */
  lemma OdictRowStep(rows: seq<Row>, d: Dict, i: nat, k: string)
    requires OdictLoads(rows) && i < |rows|
    ensures |rows[i]| > 2 ==> UsedTag(rows, i) == WordListTags[rows[i][1]]
    ensures var before, after := Overlay(d, OdictWrites(rows)[..i]), Overlay(d, OdictWrites(rows)[..i + 1]);
      && (Mentions(rows[i], k) ==> k in after && after[k] == LemmaEntry(PreprocessStr(rows[i][0]), UsedTag(rows, i)))
      && (!Mentions(rows[i], k) ==> (k in after <==> k in before))
      && (!Mentions(rows[i], k) && k in before ==> after[k] == before[k])
  {
    var ws := OdictWrites(rows);
    assert ws[..i + 1][..i] == ws[..i];
    RowKeysMentions(rows[i]);
    PutAllAt(Overlay(d, ws[..i]), ws[i].keys, ws[i].entry, k);
  }

  /** Last writer wins over the word list: a key is present iff it was
      present before or some row names it; it then holds the normalised
      lemma of the last row naming it with the tag that row was registered
      with, and a key no row names keeps its earlier (corpus) entry. */
  lemma OdictLastWins(rows: seq<Row>, d: Dict, k: string)
    requires OdictLoads(rows)
    ensures k in Overlay(d, OdictWrites(rows)) <==> k in d || exists i | 0 <= i < |rows| :: Mentions(rows[i], k)
    ensures forall i | 0 <= i < |rows| && Mentions(rows[i], k) && (forall j | i < j < |rows| :: !Mentions(rows[j], k)) ::
      Overlay(d, OdictWrites(rows))[k] == LemmaEntry(PreprocessStr(rows[i][0]), UsedTag(rows, i))
    ensures (forall i | 0 <= i < |rows| :: !Mentions(rows[i], k)) && k in d ==> Overlay(d, OdictWrites(rows))[k] == d[k]
  {
    var ws := OdictWrites(rows);
    OverlayLastWins(d, ws, k);
    forall i | 0 <= i < |rows|
      ensures k in ws[i].keys <==> Mentions(rows[i], k)
    {
      RowKeysMentions(rows[i]);
    }
    if Mentioned(ws, k) {
      var i :| 0 <= i < |ws| && k in ws[i].keys;
      assert Mentions(rows[i], k);
    }
    forall i | 0 <= i < |rows| && Mentions(rows[i], k) && (forall j | i < j < |rows| :: !Mentions(rows[j], k))
      ensures Overlay(d, OdictWrites(rows))[k] == LemmaEntry(PreprocessStr(rows[i][0]), UsedTag(rows, i))
    {
      assert LastMention(ws, k, i);
    }
  }

  /** A first row without word forms leaves `tag` unbound: the overlay fails. */
  lemma FormlessFirstRowFails(rows: seq<Row>)
    requires rows != [] && |rows[0]| <= 2
    ensures !OdictLoads(rows)
  {
  }

  // ---------------------------------------------------------------------
  // Resolution (`process_word`)

  /** `process_word`'s decision for token w, given `frequencies[w]` and the
      lemma dictionary. */
  function Resolve(stats: TagTable, w: string, d: Dict): LemmaEntry
  {
    var s := PreprocessStr(w);
    var dictBase := if s in d then d[s].base else w;
    var freqTag := if stats == [] then NI else stats[Winner(stats)].tag;
    var base := if freqTag != NI then stats[Winner(stats)].base else dictBase;
    var tag := if freqTag == NI && s in d then d[s].tag else freqTag;
    LemmaEntry(base, tag)
  }

  /** The three outcomes: with no frequencies, the dictionary entry of the
      normalised token (or the token itself with NI); when the most frequent
      tag (first on ties) is identified, that tag and its first corpus lemma,
      whatever the dictionary says; when it is NI, the dictionary again. */
  lemma ResolveCases(stats: TagTable, w: string, d: Dict)
    ensures stats == [] ==>
      Resolve(stats, w, d) == if PreprocessStr(w) in d then d[PreprocessStr(w)] else LemmaEntry(w, NI)
    ensures forall i | FirstMax(stats, i) && stats[i].tag != NI ::
      Resolve(stats, w, d) == LemmaEntry(stats[i].base, stats[i].tag)
    ensures forall i | FirstMax(stats, i) && stats[i].tag == NI ::
      Resolve(stats, w, d) == if PreprocessStr(w) in d then d[PreprocessStr(w)] else LemmaEntry(w, NI)
  {
    if stats != [] {
      WinnerFirstMax(stats);
      forall i | FirstMax(stats, i)
        ensures i == Winner(stats)
      {
        FirstMaxUnique(stats, i, Winner(stats));
      }
    }
  }

  /** `process_word`: the annotation `w{lemma=TAG}` under the frequency table f. */
  function ProcessWord(f: FreqTable, w: string, d: Dict): string
  {
    Format(w, Resolve(StatsOf(f, w), w, d))
  }

  function Annotations(f: FreqTable, ts: seq<string>, d: Dict): seq<string>
  {
    seq(|ts|, i requires 0 <= i < |ts| => ProcessWord(f, ts[i], d))
  }

  /** The text printed for one input line. */
  function LineOutput(f: FreqTable, line: string, d: Dict): string
  {
    SpaceTerminated(Annotations(f, Tokens(line), d)) + "\n"
  }

  function Outputs(f: FreqTable, lines: seq<string>, d: Dict): seq<string>
  {
    seq(|lines|, i requires 0 <= i < |lines| => LineOutput(f, lines[i], d))
  }

  lemma OutputsSnoc(f: FreqTable, lines: seq<string>, d: Dict)
    requires lines != []
    ensures Outputs(f, lines, d) == Outputs(f, lines[..|lines| - 1], d) + [LineOutput(f, lines[|lines| - 1], d)]
  {
  }

  // ---------------------------------------------------------------------
  // The global state

  /** The process-wide `frequencies` table and the operations that use it. */
  class Frequencies {
    var table: FreqTable

    ghost predicate Valid()
      reads this
    {
      WellFormed(table)
    }

    constructor ()
      ensures Valid() && table == map[]
    {
      table := map[];
    }

    /** The update of `frequencies[word]` for one reading (hw1/lemm.py:118-123).
        The word of a corpus reading is normalised, and counting it keeps
        the table well formed. */
    method RecordReading(r: Reading)
      requires Valid() && IsNormal(r.word)
      modifies this
      ensures Valid()
      ensures table == CountReading(old(table), r)
    {
      BumpShape(StatsOf(table, r.word), r.tag, r.base);
      var d := if r.word in table then table[r.word] else [];
      match IndexOf(d, r.tag) {
        case Some(k) =>
          d := d[k := TagStat(r.tag, d[k].base, d[k].count + 1)];
        case None =>
          d := d + [TagStat(r.tag, r.base, 1)];
      }
      table := table[r.word := d];
    }

    /** `load_dictionary`: counts every token into the table and returns
        the corpus lemma dictionary. */
    method LoadDictionary(tokens: seq<CorpusToken>) returns (lemmaDict: Dict)
      requires Valid() && TokensLoad(tokens)
      modifies this
      ensures Valid()
      ensures table == Counted(old(table), Readings(tokens))
      ensures lemmaDict == CorpusDict(Readings(tokens))
    {
      ghost var rs := Readings(tokens);
      lemmaDict := map[];
      for i := 0 to |tokens|
        invariant Valid()
        invariant table == Counted(old(table), rs[..i])
        invariant lemmaDict == CorpusDict(rs[..i])
      {
        var tok := tokens[i];
        var word := PreprocessStr(tok.text);
        PreprocessStrIsNormal(tok.text);
        var base := PreprocessStr(tok.base);
        var tag := CorpusTags[tok.grammeme];
        RecordReading(Reading(word, base, tag));
        lemmaDict := lemmaDict[word := LemmaEntry(base, tag)];
        lemmaDict := lemmaDict[base := LemmaEntry(base, tag)];
        assert rs[i] == Reading(word, base, tag);
        CorpusDictSnoc(rs[..i + 1]);
        assert rs[..i + 1][..i] == rs[..i];
      }
      assert rs[..|tokens|] == rs;
    }

    /** The body of `main`'s loop for one line. */
    method AnnotateLine(line: string, d: Dict) returns (out: string)
      ensures out == LineOutput(table, line, d)
    {
      var s := RemoveChar(line, ',');
      s := RemoveChar(s, '.');
      s := RemoveChar(s, '!');
      s := RemoveChar(s, '?');
      s := RemoveChar(s, '\n');
      var tokens := Split(s, ' ');
      out := "";
      for i := 0 to |tokens|
        invariant out == SpaceTerminated(Annotations(table, tokens[..i], d))
      {
        assert Annotations(table, tokens[..i + 1], d)[..i] == Annotations(table, tokens[..i], d);
        out := out + ProcessWord(table, tokens[i], d) + " ";
      }
      assert tokens[..|tokens|] == tokens;
      out := out + "\n";
    }

    /** `main`: load the corpus, overlay the word list, then annotate the
        input line by line. */
    method Run(tokens: seq<CorpusToken>, rows: seq<Row>, lines: seq<string>) returns (output: seq<string>)
      requires Valid() && TokensLoad(tokens) && OdictLoads(rows)
      modifies this
      ensures Valid()
      ensures table == Counted(old(table), Readings(tokens))
      ensures output == Outputs(table, lines, Overlay(CorpusDict(Readings(tokens)), OdictWrites(rows)))
    {
      var lemmaDict := LoadDictionary(tokens);
      lemmaDict := LoadOdict(rows, lemmaDict);
      output := [];
      ghost var loaded := table;
      for i := 0 to |lines|
        invariant table == loaded
        invariant output == Outputs(table, lines[..i], lemmaDict)
      {
        var out := AnnotateLine(lines[i], lemmaDict);
        OutputsSnoc(table, lines[..i + 1], lemmaDict);
        assert lines[..i + 1][..i] == lines[..i];
        output := output + [out];
      }
      assert lines[..|lines|] == lines;
    }
  }
}
