/** The flat lemma dictionary (`lemma_dict`) both lemmatizers build: a map
    from normalised word forms to a (lemma, tag) entry. Every loader writes
    one entry under a list of keys per source record, overwriting what was
    there, so each loader is an `Overlay` of such writes. */
module Lexicon {
  import opened Tags
  import opened Text

  datatype Option<T> = None | Some(value: T)

  /** A word-list row as the CSV reader delivers it: `(lemma, label, form, ...)`. */
  type Row = seq<string>

  /** The word forms of a row (`row[2:]`, empty for a short row). */
  function Forms(row: Row): seq<string>
  {
    if |row| >= 2 then row[2..] else []
  }

  /** The row names k: k is its normalised lemma or one of its normalised forms. */
  predicate Mentions(row: Row, k: string)
    requires |row| >= 1
  {
    k == PreprocessStr(row[0]) || exists j | 2 <= j < |row| :: PreprocessStr(row[j]) == k
  }

  /** The keys a row is stored under, in the order the loaders write them:
      each normalised form, then the normalised lemma. */
  function RowKeys(row: Row): seq<string>
    requires |row| >= 1
  {
    PreprocessAll(Forms(row)) + [PreprocessStr(row[0])]
  }

  /** The keys of a row are exactly the strings the row names. */
  lemma RowKeysMentions(row: Row)
    requires |row| >= 1
    ensures forall k :: k in RowKeys(row) <==> Mentions(row, k)
    ensures RowKeys(row)[..|RowKeys(row)| - 1] == PreprocessAll(Forms(row))
  {
    var forms := PreprocessAll(Forms(row));
    forall k | k in forms
      ensures exists j | 2 <= j < |row| :: PreprocessStr(row[j]) == k
    {
      var i :| 0 <= i < |forms| && forms[i] == k;
      assert PreprocessStr(row[2 + i]) == k;
    }
    forall j | 2 <= j < |row|
      ensures PreprocessStr(row[j]) in forms
    {
      assert forms[j - 2] == PreprocessStr(row[j]);
    }
  }

  /** A resolved word: its lemma (`base`) and coarse tag. */
  datatype LemmaEntry = LemmaEntry(base: string, tag: Tag)

  type Dict = map<string, LemmaEntry>

  /** One source record's effect: `entry` stored under every key, in order. */
  datatype Write = Write(keys: seq<string>, entry: LemmaEntry)

  /** `d[k] = e` for every k of `keys`, left to right. */
  function PutAll(d: Dict, keys: seq<string>, e: LemmaEntry): Dict
  {
    if keys == [] then d else PutAll(d, keys[..|keys| - 1], e)[keys[|keys| - 1] := e]
  }

  /** After PutAll every named key holds e and every other key is as before. */
  lemma {:induction false} PutAllAt(d: Dict, keys: seq<string>, e: LemmaEntry, k: string)
    ensures k in PutAll(d, keys, e) <==> k in d || k in keys
    ensures k in keys ==> PutAll(d, keys, e)[k] == e
    ensures k !in keys && k in d ==> PutAll(d, keys, e)[k] == d[k]
  {
    if keys != [] {
      var init := keys[..|keys| - 1];
      PutAllAt(d, init, e, k);
      assert k in keys <==> k in init || k == keys[|keys| - 1];
    }
  }

  /** The dictionary after applying the writes in order. */
  function Overlay(d: Dict, ws: seq<Write>): Dict
  {
    if ws == [] then d
    else
      var w := ws[|ws| - 1];
      PutAll(Overlay(d, ws[..|ws| - 1]), w.keys, w.entry)
  }

  /** Some write stores under k. */
  predicate Mentioned(ws: seq<Write>, k: string)
  {
    exists i | 0 <= i < |ws| :: k in ws[i].keys
  }

  /** Write i is the last one that stores under k. */
  predicate LastMention(ws: seq<Write>, k: string, i: int)
  {
    0 <= i < |ws| && k in ws[i].keys && forall j | i < j < |ws| :: k !in ws[j].keys
  }

  /** Last writer wins: a key is present iff it was present before or some
      write names it; its value is that of the last write naming it, and a
      key no write names keeps its old value. */
  lemma {:induction false} OverlayLastWins(d: Dict, ws: seq<Write>, k: string)
    ensures k in Overlay(d, ws) <==> k in d || Mentioned(ws, k)
    ensures forall i | LastMention(ws, k, i) :: Overlay(d, ws)[k] == ws[i].entry
    ensures !Mentioned(ws, k) && k in d ==> Overlay(d, ws)[k] == d[k]
  {
    if ws != [] {
      var n := |ws| - 1;
      var init, w := ws[..n], ws[n];
      OverlayLastWins(d, init, k);
      assert Overlay(d, ws) == PutAll(Overlay(d, init), w.keys, w.entry);
      PutAllAt(Overlay(d, init), w.keys, w.entry, k);
      MentionedSnoc(ws, k);
      if k in w.keys {
        forall i | LastMention(ws, k, i)
          ensures i == n
        {
        }
      } else {
        forall i | LastMention(ws, k, i)
          ensures LastMention(init, k, i)
        {
          assert i != n;
          assert init[i] == ws[i];
        }
      }
    }
  }

  /** A key is mentioned by a non-empty list of writes iff it is mentioned
      by all but the last write or by the last one. */
  lemma MentionedSnoc(ws: seq<Write>, k: string)
    requires ws != []
    ensures Mentioned(ws, k) <==> Mentioned(ws[..|ws| - 1], k) || k in ws[|ws| - 1].keys
  {
  }

  /** A key some write names ends up with the same value whatever the
      dictionary the writes were applied to. */
  lemma {:induction false} OverlayMentionedIndependent(d1: Dict, d2: Dict, ws: seq<Write>, k: string)
    requires Mentioned(ws, k)
    ensures k in Overlay(d1, ws) && k in Overlay(d2, ws)
    ensures Overlay(d1, ws)[k] == Overlay(d2, ws)[k]
  {
    var n := |ws| - 1;
    var w := ws[n];
    PutAllAt(Overlay(d1, ws[..n]), w.keys, w.entry, k);
    PutAllAt(Overlay(d2, ws[..n]), w.keys, w.entry, k);
    if k !in w.keys {
      MentionedSnoc(ws, k);
      OverlayMentionedIndependent(d1, d2, ws[..n], k);
    }
  }

  /** Loading two batches one after the other is loading their concatenation. */
  lemma {:induction false} OverlayAppend(d: Dict, first: seq<Write>, second: seq<Write>)
    ensures Overlay(Overlay(d, first), second) == Overlay(d, first + second)
  {
    if second != [] {
      var n := |second| - 1;
      OverlayAppend(d, first, second[..n]);
      assert (first + second)[..|first + second| - 1] == first + second[..n];
    } else {
      assert first + second == first;
    }
  }

  /** Every entry of d has a tag from `allowed`. */
  predicate TagsIn(d: Dict, allowed: set<Tag>)
  {
    forall k | k in d :: d[k].tag in allowed
  }

  /** Writes whose entries have tags from `allowed` keep every tag in `allowed`. */
  lemma {:induction false} OverlayTagsIn(d: Dict, ws: seq<Write>, allowed: set<Tag>)
    requires TagsIn(d, allowed)
    requires forall i | 0 <= i < |ws| :: ws[i].entry.tag in allowed
    ensures TagsIn(Overlay(d, ws), allowed)
  {
    if ws != [] {
      var prev, w := Overlay(d, ws[..|ws| - 1]), ws[|ws| - 1];
      OverlayTagsIn(d, ws[..|ws| - 1], allowed);
      forall k | k in Overlay(d, ws)
        ensures Overlay(d, ws)[k].tag in allowed
      {
        PutAllAt(prev, w.keys, w.entry, k);
      }
    }
  }

  /** The annotation `w{base=TAG}` printed for a token. */
  function Format(w: string, e: LemmaEntry): string
  {
    w + "{" + e.base + "=" + Name(e.tag) + "}"
  }
}
