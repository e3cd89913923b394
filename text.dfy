/** String handling shared by both lemmatizers: the key normaliser
    (`preprocess_str`), the punctuation stripping and space splitting of an
    input line, and the space-terminated output line. */
module Text {

  /** Upper-case letters of the model: Latin A-Z and the Cyrillic block
      U+0400..U+042F (which holds Ё, U+0401, and А..Я). */
  predicate IsUpper(c: char)
  {
    'A' <= c <= 'Z' || '\U{0400}' <= c <= '\U{042F}'
  }

  /** Char-wise lower-casing of ASCII A-Z and U+0400..U+042F: A-Z and А..Я move by
      0x20, the U+0400 row (Ё among it) moves by 0x50 to U+0450 (ё). */
  function LowerChar(c: char): (r: char)
    ensures !IsUpper(r)
    ensures IsUpper(c) <==> r != c
  {
    if 'A' <= c <= 'Z' || '\U{0410}' <= c <= '\U{042F}' then (c as int + 0x20) as char
    else if '\U{0400}' <= c <= '\U{040F}' then (c as int + 0x50) as char
    else c
  }

  /** `str.lower()` under the char-wise model. */
  function Lower(s: string): (r: string)
  {
    if s == [] then [] else [LowerChar(s[0])] + Lower(s[1..])
  }

  /** `str.replace(from, to)` for single characters: every `from` becomes `to`. */
  function ReplaceChar(s: string, from: char, to: char): (r: string)
  {
    if s == [] then [] else [if s[0] == from then to else s[0]] + ReplaceChar(s[1..], from, to)
  }

  /** `preprocess_str`: lower-case, then fold ё into е. */
  function PreprocessStr(s: string): string
  {
    ReplaceChar(Lower(s), 'ё', 'е')
  }

  /** A string that no upper-case letter and no ё appears in. */
  predicate IsNormal(s: string)
  {
    forall i | 0 <= i < |s| :: !IsUpper(s[i]) && s[i] != 'ё'
  }

  lemma {:induction false} LowerAt(s: string, i: nat)
    requires i < |s|
    ensures |Lower(s)| == |s| && Lower(s)[i] == LowerChar(s[i])
  {
    if i > 0 {
      LowerAt(s[1..], i - 1);
    } else if |s| > 1 {
      LowerAt(s[1..], 0);
    }
  }

  lemma {:induction false} LowerLength(s: string)
    ensures |Lower(s)| == |s|
  {
    if s != [] {
      LowerLength(s[1..]);
    }
  }

  lemma {:induction false} ReplaceCharAt(s: string, from: char, to: char, i: nat)
    requires i < |s|
    ensures |ReplaceChar(s, from, to)| == |s|
    ensures ReplaceChar(s, from, to)[i] == if s[i] == from then to else s[i]
  {
    if i > 0 {
      ReplaceCharAt(s[1..], from, to, i - 1);
    } else if |s| > 1 {
      ReplaceCharAt(s[1..], from, to, 0);
    }
  }

  lemma {:induction false} ReplaceCharLength(s: string, from: char, to: char)
    ensures |ReplaceChar(s, from, to)| == |s|
  {
    if s != [] {
      ReplaceCharLength(s[1..], from, to);
    }
  }

  /** Character i of the normalised string is the normalised character i. */
  lemma PreprocessStrAt(s: string, i: nat)
    requires i < |s|
    ensures |PreprocessStr(s)| == |s|
    ensures PreprocessStr(s)[i] == if LowerChar(s[i]) == 'ё' then 'е' else LowerChar(s[i])
  {
    LowerAt(s, i);
    ReplaceCharAt(Lower(s), 'ё', 'е', i);
  }

  lemma PreprocessStrLength(s: string)
    ensures |PreprocessStr(s)| == |s|
  {
    LowerLength(s);
    ReplaceCharLength(Lower(s), 'ё', 'е');
  }

  /** The normaliser leaves no upper-case letter and no ё behind. */
  lemma PreprocessStrIsNormal(s: string)
    ensures IsNormal(PreprocessStr(s))
  {
    PreprocessStrLength(s);
    forall i | 0 <= i < |s|
      ensures !IsUpper(PreprocessStr(s)[i]) && PreprocessStr(s)[i] != 'ё'
    {
      PreprocessStrAt(s, i);
    }
  }

  /** The fixed points of the normaliser are exactly the normal strings. */
  lemma PreprocessStrFixedIffNormal(s: string)
    ensures PreprocessStr(s) == s <==> IsNormal(s)
  {
    PreprocessStrLength(s);
    if IsNormal(s) {
      forall i | 0 <= i < |s|
        ensures PreprocessStr(s)[i] == s[i]
      {
        PreprocessStrAt(s, i);
      }
    }
    if PreprocessStr(s) == s {
      PreprocessStrIsNormal(s);
    }
  }

  /** `preprocess_str` is idempotent. */
  lemma PreprocessStrIdempotent(s: string)
    ensures PreprocessStr(PreprocessStr(s)) == PreprocessStr(s)
  {
    PreprocessStrIsNormal(s);
    PreprocessStrFixedIffNormal(PreprocessStr(s));
  }

  /** The normaliser ignores case: a string and its lower-cased form normalise alike. */
  lemma PreprocessStrIgnoresCase(s: string)
    ensures PreprocessStr(Lower(s)) == PreprocessStr(s)
  {
  }

  /** `preprocess_str` applied to every element of a list of word forms. */
  function PreprocessAll(ws: seq<string>): seq<string>
  {
    seq(|ws|, i requires 0 <= i < |ws| => PreprocessStr(ws[i]))
  }

  /** `s.replace(c, '')`: every occurrence of c removed, the rest in order. */
  function RemoveChar(s: string, c: char): string
  {
    if s == [] then []
    else if s[0] == c then RemoveChar(s[1..], c)
    else [s[0]] + RemoveChar(s[1..], c)
  }

  /** Removing c keeps exactly the other characters and drops one per occurrence. */
  lemma {:induction false} RemoveCharContents(s: string, c: char)
    ensures forall x :: x in RemoveChar(s, c) <==> x in s && x != c
    ensures |RemoveChar(s, c)| == |s| - Count(s, c)
  {
    if s != [] {
      RemoveCharContents(s[1..], c);
      assert forall x :: x in s <==> x == s[0] || x in s[1..];
    }
  }

  /** The number of occurrences of c in s. */
  function Count(s: string, c: char): (n: nat)
    ensures n <= |s|
  {
    if s == [] then 0 else (if s[0] == c then 1 else 0) + Count(s[1..], c)
  }

  /** The characters an input line is stripped of, in the order they are removed. */
  const Punctuation: seq<char> := [',', '.', '!', '?', '\n']

  /** The five successive `replace` calls on an input line. */
  function StripPunctuation(line: string): string
  {
    RemoveChar(RemoveChar(RemoveChar(RemoveChar(RemoveChar(line, ','), '.'), '!'), '?'), '\n')
  }

  /** The stripped line keeps exactly the characters of the line that are not punctuation. */
  lemma StripPunctuationContents(line: string)
    ensures forall x :: x in StripPunctuation(line) <==> x in line && x !in Punctuation
  {
    var s1 := RemoveChar(line, ',');
    var s2 := RemoveChar(s1, '.');
    var s3 := RemoveChar(s2, '!');
    var s4 := RemoveChar(s3, '?');
    RemoveCharContents(line, ',');
    RemoveCharContents(s1, '.');
    RemoveCharContents(s2, '!');
    RemoveCharContents(s3, '?');
    RemoveCharContents(s4, '\n');
  }

  /** `s.split(sep)` for a one-character separator: the pieces between
      separators, with empty pieces kept; the empty string gives one empty piece. */
  function Split(s: string, sep: char): (r: seq<string>)
    ensures |r| >= 1
  {
    if s == [] then [""]
    else
      var rest := Split(s[1..], sep);
      if s[0] == sep then [""] + rest else [[s[0]] + rest[0]] + rest[1..]
  }

  /** `sep.join(pieces)`. */
  function Join(pieces: seq<string>, sep: char): string
    requires |pieces| >= 1
  {
    if |pieces| == 1 then pieces[0] else pieces[0] + [sep] + Join(pieces[1..], sep)
  }

  /** No piece of a split contains the separator. */
  lemma {:induction false} SplitPiecesFree(s: string, sep: char)
    ensures forall i | 0 <= i < |Split(s, sep)| :: sep !in Split(s, sep)[i]
  {
    if s != [] {
      SplitPiecesFree(s[1..], sep);
    }
  }

  /** Every character of a piece of a split is a character of the string. */
  lemma {:induction false} SplitPiecesWithin(s: string, sep: char)
    ensures forall i, x | 0 <= i < |Split(s, sep)| && x in Split(s, sep)[i] :: x in s
  {
    if s != [] {
      SplitPiecesWithin(s[1..], sep);
      var rest := Split(s[1..], sep);
      forall i, x | 0 <= i < |Split(s, sep)| && x in Split(s, sep)[i]
        ensures x in s
      {
        assert forall y | y in s[1..] :: y in s;
        if s[0] != sep && i == 0 {
          assert x == s[0] || x in rest[0];
        }
      }
    }
  }

  /** The tokens of an input line: strip the punctuation, then split on
      single spaces. Empty tokens are kept. */
  function Tokens(line: string): seq<string>
  {
    Split(StripPunctuation(line), ' ')
  }

  /** There is one token more than there are spaces in the stripped line; no
      token holds a space or a punctuation character; joining the tokens with
      spaces gives back the stripped line. */
  lemma TokensProperties(line: string)
    ensures |Tokens(line)| == Count(StripPunctuation(line), ' ') + 1
    ensures forall i | 0 <= i < |Tokens(line)| :: ' ' !in Tokens(line)[i]
    ensures forall i, c | 0 <= i < |Tokens(line)| && c in Punctuation :: c !in Tokens(line)[i]
    ensures Join(Tokens(line), ' ') == StripPunctuation(line)
  {
    var s := StripPunctuation(line);
    StripPunctuationContents(line);
    SplitCount(s, ' ');
    SplitPiecesFree(s, ' ');
    SplitPiecesWithin(s, ' ');
    JoinSplit(s, ' ');
  }

  /** A split has one piece more than there are separators. */
  lemma {:induction false} SplitCount(s: string, sep: char)
    ensures |Split(s, sep)| == Count(s, sep) + 1
  {
    if s != [] {
      SplitCount(s[1..], sep);
    }
  }

  /** Joining the pieces of a split gives back the string. */
  lemma {:induction false} JoinSplit(s: string, sep: char)
    ensures Join(Split(s, sep), sep) == s
  {
    if s != [] {
      var rest := Split(s[1..], sep);
      JoinSplit(s[1..], sep);
      if s[0] == sep {
        assert s == [sep] + s[1..];
      } else if |rest| == 1 {
        assert s == [s[0]] + s[1..];
      } else {
        var r := Split(s, sep);
        assert r[1..] == rest[1..];
        assert s == [s[0]] + s[1..];
      }
    }
  }

  /** Splitting the join of separator-free pieces gives back the pieces. */
  lemma {:induction false} SplitJoin(pieces: seq<string>, sep: char)
    requires |pieces| >= 1
    requires forall i | 0 <= i < |pieces| :: sep !in pieces[i]
    ensures Split(Join(pieces, sep), sep) == pieces
  {
    if |pieces| == 1 {
      SplitPiece(pieces[0], sep, []);
      assert pieces[0] + [] == pieces[0];
    } else {
      SplitJoin(pieces[1..], sep);
      var tail := Join(pieces[1..], sep);
      assert Join(pieces, sep) == pieces[0] + ([sep] + tail);
      SplitSep(tail, sep);
      SplitPiece(pieces[0], sep, [sep] + tail);
      assert pieces[0] + "" == pieces[0];
      assert pieces == [pieces[0]] + pieces[1..];
    }
  }

  /** Splitting a string that starts with the separator. */
  lemma SplitSep(t: string, sep: char)
    ensures Split([sep] + t, sep) == [""] + Split(t, sep)
  {
  }

  /** A separator-free prefix glues onto the first piece of the rest. */
  lemma {:induction false} SplitPiece(p: string, sep: char, t: string)
    requires sep !in p
    ensures Split(p + t, sep) == [p + Split(t, sep)[0]] + Split(t, sep)[1..]
  {
    var st := Split(t, sep);
    if p != [] {
      assert (p + t)[1..] == p[1..] + t;
      assert (p + t)[0] == p[0];
      SplitPiece(p[1..], sep, t);
      assert [p[0]] + (p[1..] + st[0]) == p + st[0];
    } else {
      assert p + t == t;
      assert st == [st[0]] + st[1..];
      assert p + st[0] == st[0];
    }
  }

  /** The output line of both lemmatizers: every piece followed by one
      space (`print(..., end=' ')` per token). */
  function SpaceTerminated(pieces: seq<string>): string
  {
    if pieces == [] then "" else SpaceTerminated(pieces[..|pieces| - 1]) + pieces[|pieces| - 1] + " "
  }

  /** The output for a concatenation of token lists is the concatenation of the outputs. */
  lemma {:induction false} SpaceTerminatedAppend(a: seq<string>, b: seq<string>)
    ensures SpaceTerminated(a + b) == SpaceTerminated(a) + SpaceTerminated(b)
  {
    if b != [] {
      var b' := b[..|b| - 1];
      assert (a + b)[..|a + b| - 1] == a + b';
      SpaceTerminatedAppend(a, b');
    } else {
      assert a + b == a;
    }
  }

  /** The output has one space per token beyond the tokens' own characters. */
  lemma {:induction false} SpaceTerminatedLength(pieces: seq<string>)
    ensures |SpaceTerminated(pieces)| == TotalLength(pieces) + |pieces|
  {
    if pieces != [] {
      SpaceTerminatedLength(pieces[..|pieces| - 1]);
    }
  }

  function TotalLength(pieces: seq<string>): nat
  {
    if pieces == [] then 0 else TotalLength(pieces[..|pieces| - 1]) + |pieces[|pieces| - 1]|
  }
}
