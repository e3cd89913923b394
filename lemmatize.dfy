/** The word-list lemmatizer (hw1/lemmatize.py): it builds the lemma
    dictionary from word-list rows `(lemma, label, form, form, ...)` and
    annotates every token of every input line by a plain lookup. */
module Lemmatize {
  import opened Tags
  import opened Text
  import opened Lexicon

  /** `process_word`'s decision: the entry stored under the normalised
      token, or the token itself with NI when there is none. */
  function Resolve(w: string, d: Dict): LemmaEntry
  {
    var s := PreprocessStr(w);
    if s in d then d[s] else LemmaEntry(w, NI)
  }

  /** `process_word`: the annotation `w{lemma=TAG}`. */
  function ProcessWord(w: string, d: Dict): string
  {
    Format(w, Resolve(w, d))
  }

  /** A row the loader can process: it has a label column and the label is
      in the table (otherwise the source fails with IndexError or KeyError). */
  predicate RowLoads(row: Row)
  {
    |row| >= 2 && row[1] in WordListTags
  }

  predicate RowsLoad(rows: seq<Row>)
  {
    forall i | 0 <= i < |rows| :: RowLoads(rows[i])
  }

  /** What one row stores: its own normalised lemma and tag, under each
      normalised form and then under the normalised lemma. */
  function RowWrite(row: Row): Write
    requires RowLoads(row)
  {
    var base := PreprocessStr(row[0]);
    Write(RowKeys(row), LemmaEntry(base, WordListTag(row[1])))
  }

  function RowWrites(rows: seq<Row>): seq<Write>
    requires RowsLoad(rows)
  {
    seq(|rows|, i requires 0 <= i < |rows| => RowWrite(rows[i]))
  }

  /** The dictionary `load_dictionary` returns for the given rows. */
  function Loaded(rows: seq<Row>): Dict
    requires RowsLoad(rows)
  {
    Overlay(map[], RowWrites(rows))
  }

  /** `load_dictionary`: a nested loop of overwrites into a fresh dictionary. */
  method LoadDictionary(rows: seq<Row>) returns (lemmaDict: Dict)
    requires RowsLoad(rows)
    ensures lemmaDict == Loaded(rows)
  {
    lemmaDict := map[];
    for i := 0 to |rows|
      invariant lemmaDict == Loaded(rows[..i])
    {
      var row := rows[i];
      ghost var before := lemmaDict;
      ghost var entry := LemmaEntry(PreprocessStr(row[0]), WordListTags[row[1]]);
      for j := 2 to |row|
        invariant lemmaDict == PutAll(before, PreprocessAll(row[2..j]), entry)
      {
        assert PreprocessAll(row[2..j + 1])[..j - 2] == PreprocessAll(row[2..j]);
        lemmaDict := lemmaDict[PreprocessStr(row[j]) := (LemmaEntry(PreprocessStr(row[0]), WordListTags[row[1]]))];
      }
      lemmaDict := lemmaDict[PreprocessStr(row[0]) := (LemmaEntry(PreprocessStr(row[0]), WordListTags[row[1]]))];
      assert row[2..|row|] == row[2..];
      LoadedSnoc(rows[..i + 1]);
      assert rows[..i + 1][..i] == rows[..i];
    }
    assert rows[..|rows|] == rows;
  }

  /** Loading one row more: its forms, then its lemma, are written over the
      dictionary loaded so far. */
  lemma LoadedSnoc(rows: seq<Row>)
    requires RowsLoad(rows) && rows != []
    ensures var row := rows[|rows| - 1];
      var entry := LemmaEntry(PreprocessStr(row[0]), WordListTags[row[1]]);
      Loaded(rows) == PutAll(Loaded(rows[..|rows| - 1]), PreprocessAll(row[2..]), entry)[PreprocessStr(row[0]) := entry]
  {
    var n := |rows| - 1;
    assert RowWrites(rows)[..n] == RowWrites(rows[..n]);
    RowKeysMentions(rows[n]);
  }

  /** Last writer wins: a key is in the loaded dictionary iff some row names
      it, and it holds the lemma and tag of the last row that names it. */
  lemma LoadedLastWins(rows: seq<Row>, k: string)
    requires RowsLoad(rows)
    ensures k in Loaded(rows) <==> exists i | 0 <= i < |rows| :: Mentions(rows[i], k)
    ensures forall i | 0 <= i < |rows| && Mentions(rows[i], k) && (forall j | i < j < |rows| :: !Mentions(rows[j], k)) ::
      Loaded(rows)[k] == LemmaEntry(PreprocessStr(rows[i][0]), WordListTags[rows[i][1]])
  {
    var ws := RowWrites(rows);
    OverlayLastWins(map[], ws, k);
    forall i | 0 <= i < |rows|
      ensures k in ws[i].keys <==> Mentions(rows[i], k)
    {
      RowKeysMentions(rows[i]);
    }
    if k in Loaded(rows) {
      var i :| 0 <= i < |ws| && k in ws[i].keys;
      assert Mentions(rows[i], k);
    }
    forall i | 0 <= i < |rows| && Mentions(rows[i], k) && (forall j | i < j < |rows| :: !Mentions(rows[j], k))
      ensures Loaded(rows)[k] == LemmaEntry(PreprocessStr(rows[i][0]), WordListTags[rows[i][1]])
    {
      assert LastMention(ws, k, i);
    }
  }

  /** A row with no word forms still registers its lemma, with its own tag. */
  lemma FormlessRowRegistersLemma(rows: seq<Row>, i: nat)
    requires RowsLoad(rows)
    requires i < |rows| && |rows[i]| == 2
    requires forall j | i < j < |rows| :: !Mentions(rows[j], PreprocessStr(rows[i][0]))
    ensures PreprocessStr(rows[i][0]) in Loaded(rows)
    ensures Loaded(rows)[PreprocessStr(rows[i][0])] == LemmaEntry(PreprocessStr(rows[i][0]), WordListTags[rows[i][1]])
  {
    LoadedLastWins(rows, PreprocessStr(rows[i][0]));
  }

  /** Every key of the loaded dictionary is a normalised string. */
  lemma LoadedKeysNormal(rows: seq<Row>)
    requires RowsLoad(rows)
    ensures forall k | k in Loaded(rows) :: IsNormal(k)
  {
    forall k | k in Loaded(rows)
      ensures IsNormal(k)
    {
      LoadedLastWins(rows, k);
      var i :| 0 <= i < |rows| && Mentions(rows[i], k);
      if k == PreprocessStr(rows[i][0]) {
        PreprocessStrIsNormal(rows[i][0]);
      } else {
        var j :| 2 <= j < |rows[i]| && PreprocessStr(rows[i][j]) == k;
        PreprocessStrIsNormal(rows[i][j]);
      }
    }
  }

  /** Every tag stored by the word-list loader is an identified one. */
  lemma LoadedTagsIdentified(rows: seq<Row>)
    requires RowsLoad(rows)
    ensures TagsIn(Loaded(rows), Identified)
  {
    var ws := RowWrites(rows);
    forall i | 0 <= i < |ws|
      ensures ws[i].entry.tag in Identified
    {
      assert ws[i] == RowWrite(rows[i]);
    }
    OverlayTagsIn(map[], ws, Identified);
  }

  /** With a loaded dictionary, NI is returned exactly for the tokens whose
      normalised form is absent, and then the lemma is the token itself. */
  lemma ResolveNIOnlyWhenAbsent(rows: seq<Row>, w: string)
    requires RowsLoad(rows)
    ensures Resolve(w, Loaded(rows)).tag == NI <==> PreprocessStr(w) !in Loaded(rows)
    ensures PreprocessStr(w) !in Loaded(rows) ==> Resolve(w, Loaded(rows)).base == w
  {
    LoadedTagsIdentified(rows);
    var d := Loaded(rows);
    var s := PreprocessStr(w);
    if s in d {
      assert d[s].tag in Identified;
    }
  }

  /** A token and its normalised form resolve alike whenever the dictionary
      knows the form; lookups are insensitive to case and to ё. */
  lemma ResolveIgnoresCase(w: string, d: Dict)
    requires PreprocessStr(w) in d
    ensures Resolve(PreprocessStr(w), d) == Resolve(w, d) == d[PreprocessStr(w)]
  {
    PreprocessStrIdempotent(w);
  }

  /** The annotations of a token list, in order. */
  function Annotations(ts: seq<string>, d: Dict): seq<string>
  {
    seq(|ts|, i requires 0 <= i < |ts| => ProcessWord(ts[i], d))
  }

  /** The text printed for one input line: each annotated token followed by
      a space, then the newline of the closing `print()`. */
  function LineOutput(line: string, d: Dict): string
  {
    SpaceTerminated(Annotations(Tokens(line), d)) + "\n"
  }

  /** The body of `main`'s loop for one line. */
  method AnnotateLine(line: string, d: Dict) returns (out: string)
    ensures out == LineOutput(line, d)
  {
    var s := RemoveChar(line, ',');
    s := RemoveChar(s, '.');
    s := RemoveChar(s, '!');
    s := RemoveChar(s, '?');
    s := RemoveChar(s, '\n');
    var tokens := Split(s, ' ');
    out := "";
    for i := 0 to |tokens|
      invariant out == SpaceTerminated(Annotations(tokens[..i], d))
    {
      assert Annotations(tokens[..i + 1], d)[..i] == Annotations(tokens[..i], d);
      out := out + ProcessWord(tokens[i], d) + " ";
    }
    assert tokens[..|tokens|] == tokens;
    out := out + "\n";
  }

  /** The lines printed for the given input lines. */
  function Outputs(lines: seq<string>, d: Dict): seq<string>
  {
    seq(|lines|, i requires 0 <= i < |lines| => LineOutput(lines[i], d))
  }

  lemma OutputsSnoc(lines: seq<string>, d: Dict)
    requires lines != []
    ensures Outputs(lines, d) == Outputs(lines[..|lines| - 1], d) + [LineOutput(lines[|lines| - 1], d)]
  {
  }

  /** `main`: load the word list, then annotate the input line by line. */
  method Run(rows: seq<Row>, lines: seq<string>) returns (output: seq<string>)
    requires RowsLoad(rows)
    ensures output == Outputs(lines, Loaded(rows))
  {
    var lemmaDict := LoadDictionary(rows);
    output := [];
    for i := 0 to |lines|
      invariant output == Outputs(lines[..i], lemmaDict)
    {
      var out := AnnotateLine(lines[i], lemmaDict);
      OutputsSnoc(lines[..i + 1], lemmaDict);
      assert lines[..i + 1][..i] == lines[..i];
      output := output + [out];
    }
    assert lines[..|lines|] == lines;
  }
}
