/** The word-information record shared by the dictionary scraper, the corpus merge
    and the card builders: a page URL, a list of part-of-speech entries and the
    highlighted sentences collected for the word. */
module Records {
  import opened Wrappers

  datatype Pronunciation = Pronunciation(phonetic: string, pronUrl: string)

  /** One definition: the English gloss and its Chinese translation. */
  datatype Meaning = Meaning(enMeaning: string, chMeaning: string)

  /** One part-of-speech entry. `Entry` is the shape built for an ordinary entry
      body (with UK/US pronunciations, phrases and phrase definitions); `Idiom` is
      the reduced shape built for an idiom block, which has no pronunciation and
      no phrase fields at all. `kind` is the grammatical label ("noun", "verb", ...)
      and an empty `wordPrototype` means the headword is unresolved or missing. */
  datatype PartOfSpeech =
    | Entry(kind: string, wordPrototype: string, uk: Pronunciation, us: Pronunciation,
            definitions: seq<Meaning>, phrases: seq<string>, phraseDefinitions: seq<Meaning>)
    | Idiom(kind: string, wordPrototype: string, definitions: seq<Meaning>)

  /** A highlighted sentence: `text` is the highlighted token or phrase (it may be
      missing), `notes` the full sentence it came from, `bookName` its source. */
  datatype Sentence = Sentence(text: Option<string>, notes: string, bookName: string)

  /** One vocabulary record. */
  datatype WordInfo = WordInfo(
    word: string,
    wordUrl: string,
    partOfSpeech: seq<PartOfSpeech>,
    sentences: seq<Sentence>)

  const EmptyPronunciation := Pronunciation("", "")

  /** The placeholder part of speech used when nothing could be scraped. */
  const DefaultPartOfSpeech := Entry("", "", EmptyPronunciation, EmptyPronunciation, [], [], [])
}
