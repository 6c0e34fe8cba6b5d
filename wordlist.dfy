/**
 * The dictionary of accepted words (`Wordlist` in ui/src/state/wordlist.rs).
 */
module Dictionary {
  import opened Text

  /** `Wordlist::new` keeps the words as given, in order. */
  datatype Wordlist = Wordlist(words: seq<string>)

  /** `contains`: the query is lower-cased, the list entries are compared as stored. */
  predicate Contains(list: Wordlist, word: string) {
    Lower(word) in list.words
  }

  /** `From<String>`: one word per line of the text. */
  function FromText(text: string): Wordlist {
    Wordlist(Lines(text))
  }

  /** Membership ignores the case of the query. */
  lemma ContainsIgnoresCase(list: Wordlist, w1: string, w2: string)
    requires Lower(w1) == Lower(w2)
    ensures Contains(list, w1) == Contains(list, w2)
  {
  }

  lemma ContainsLowered(list: Wordlist, word: string)
    ensures Contains(list, word) == Contains(list, Lower(word))
  {
    LowerIdempotent(word);
  }

  /** A listed entry with an upper-case letter matches no query at all. */
  lemma MixedCaseEntryNeverMatches(list: Wordlist, word: string)
    requires Contains(list, word)
    ensures !HasUpperAscii(Lower(word))
    ensures exists i :: 0 <= i < |list.words| && list.words[i] == Lower(word) && !HasUpperAscii(list.words[i])
  {
    LowerHasNoUpper(word);
  }

  lemma UpperEntryUnreachable(word: string)
    ensures !Contains(Wordlist(["Crane"]), word)
  {
    LowerHasNoUpper(word);
    assert IsUpperAscii("Crane"[0]);
  }

  /** A wordlist read from newline-terminated words holds exactly those words. */
  lemma FromTerminatedText(words: seq<string>)
    requires forall j, k :: 0 <= j < |words| && 0 <= k < |words[j]| ==> words[j][k] != '\n'
    requires forall j :: 0 <= j < |words| ==> !EndsWithCR(words[j])
    ensures FromText(Terminated(words, "\n")).words == words
  {
    LinesOfTerminated(words);
  }

  /** Windows line endings are removed with the newline. */
  lemma FromCrlfText(words: seq<string>)
    requires forall j, k :: 0 <= j < |words| && 0 <= k < |words[j]| ==> words[j][k] != '\n'
    ensures FromText(Terminated(words, "\r\n")).words == words
  {
    LinesOfCrlfTerminated(words);
  }

  /** Joining the words with newlines gives the text back when it has no '\r' and no final newline. */
  lemma FromTextJoin(text: string)
    requires forall k :: 0 <= k < |text| ==> text[k] != '\r'
    requires text == [] || text[|text| - 1] != '\n'
    ensures Join(FromText(text).words, "\n") == text
  {
    JoinLines(text);
  }

  /** No word holds a newline. */
  lemma FromTextWordsHaveNoNewline(text: string)
    ensures forall j, k :: 0 <= j < |FromText(text).words| && 0 <= k < |FromText(text).words[j]| ==>
      FromText(text).words[j][k] != '\n'
  {
    LinesHaveNoNewline(text);
  }

  /** A final newline adds no empty word. */
  lemma FromTextTrailingNewline(text: string)
    requires text != [] && text[|text| - 1] != '\n' && text[|text| - 1] != '\r'
    ensures FromText(text + "\n") == FromText(text)
  {
    TrailingNewlineAddsNoLine(text);
  }
}
