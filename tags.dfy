/** The coarse part-of-speech tags and the two fixed tables that map the
    corpus tag set and the word-list tag set onto them. */
module Tags {

  /** The coarse tag set; NI stands for "not identified". */
  datatype Tag = A | S | V | CONJ | PR | ADV | NI

  /** The text under which a tag is printed. */
  function Name(t: Tag): (r: string)
    ensures |r| > 0
    ensures t != NI ==> r != "NI"
  {
    match t
    case A => "A"
    case S => "S"
    case V => "V"
    case CONJ => "CONJ"
    case PR => "PR"
    case ADV => "ADV"
    case NI => "NI"
  }

  /** Printed tags are unambiguous: different tags print differently. */
  lemma NameInjective(t: Tag, u: Tag)
    ensures Name(t) == Name(u) ==> t == u
  {
  }

  /** The tags a word list can assign: every coarse tag except NI. */
  const Identified: set<Tag> := {A, S, V, CONJ, PR, ADV}

  /** `word_tag` of the corpus lemmatizer: OpenCorpora grammemes to coarse tags. */
  const CorpusTags: map<string, Tag> := map[
    "ADJF" := A,
    "ADJS" := A,
    "COMP" := A,
    "NOUN" := S,
    "VERB" := V,
    "CONJ" := CONJ,
    "PREP" := PR,
    "ADVB" := ADV,
    "INTJ" := ADV,
    "PRED" := ADV,
    "NPRO" := ADV,
    "PRCL" := ADV,
    "Prnt" := ADV,
    "PNCT" := NI,
    "INFN" := V,
    "PRTF" := V,
    "PRTS" := V,
    "GRND" := V,
    "UNKN" := NI,
    "NUMR" := NI,
    "NUMB" := NI,
    "LATN" := NI,
    "ROMN" := NI,
    "SYMB" := NI
  ]

  /** `word_tag2` of the corpus lemmatizer and `word_tag` of the word-list
      lemmatizer (the two tables are identical): word-list labels to coarse tags. */
  const WordListTags: map<string, Tag> := map[
    "п" := A,
    "м" := S,
    "ж" := S,
    "с" := S,
    "мо" := S,
    "жо" := S,
    "со" := S,
    "мн." := S,
    "нсв" := V,
    "св" := V,
    "св-нсв" := V,
    "союз" := CONJ,
    "предл." := PR,
    "част." := ADV,
    "вводн." := ADV,
    "числ.-п" := ADV,
    "числ." := ADV,
    "сравн." := ADV,
    "предик." := ADV,
    "мс-п" := ADV,
    "мо-жо" := ADV,
    "межд." := ADV,
    "н" := ADV
  ]

  /** The coarse tag of a word-list label; a word list never yields NI. */
  function WordListTag(mark: string): (t: Tag)
    requires mark in WordListTags
    ensures t in Identified
    ensures t != NI
  {
    WordListTags[mark]
  }
}
